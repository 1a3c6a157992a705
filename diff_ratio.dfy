/**
 * The two diff-ratio columns of the dashboard and the number of histogram
 * bins drawn for each. For every author the share of co-authors with a
 * target label is computed twice, once over the co-authors found by the
 * scholar search and once over the co-authors the language model named;
 * the column holds the second share minus the first.
 *
 * Python's float division is modelled by exact rational arithmetic.
 */
module DiffRatio {
  import opened Wrappers
  import opened Lookup
  import opened RealArith

  /** One row of the dashboard's table, with the columns it is created with. */
  datatype Observation = Observation(
    author: string,
    gender: string,
    ethnicity: string,
    scholarNames: seq<string>,
    scholarGenders: seq<string>,
    scholarEthnicities: seq<string>,
    scholarCountries: seq<Option<string>>,
    aiNames: seq<string>,
    aiGenders: seq<string>,
    aiEthnicities: seq<string>)

  /** Which of the two diff-ratio columns is computed. */
  datatype Attribute = Gender | Ethnicity

  /** The label that is counted: `"female"` for gender and, as the code is
      written, lowercase `"white"` for ethnicity. */
  function Target(attr: Attribute): string {
    match attr
    case Gender => "female"
    case Ethnicity => "white"
  }

  /** The labels of the co-authors found by the scholar search. */
  function ScholarLabels(row: Observation, attr: Attribute): seq<string> {
    match attr
    case Gender => row.scholarGenders
    case Ethnicity => row.scholarEthnicities
  }

  /** The labels of the co-authors the language model named. */
  function AiLabels(row: Observation, attr: Attribute): seq<string> {
    match attr
    case Gender => row.aiGenders
    case Ethnicity => row.aiEthnicities
  }

  /** `xs.count(target)`: how many elements are exactly `target`. */
  function Count(xs: seq<string>, target: string): (c: nat)
    ensures c <= |xs|
    decreases |xs|
  {
    if xs == [] then 0
    else (if xs[0] == target then 1 else 0) + Count(xs[1..], target)
  }

  /** The count is the target's multiplicity in the list. */
  lemma {:induction false} CountIsMultiplicity(xs: seq<string>, target: string)
    ensures Count(xs, target) == multiset(xs)[target]
    decreases |xs|
  {
    if xs != [] {
      CountIsMultiplicity(xs[1..], target);
      assert xs == [xs[0]] + xs[1..];
      assert multiset(xs) == multiset{xs[0]} + multiset(xs[1..]);
    }
  }

  /** The count is 0 exactly when the target does not occur. */
  lemma {:induction false} CountZero(xs: seq<string>, target: string)
    ensures Count(xs, target) == 0 <==> target !in xs
  {
    CountIsMultiplicity(xs, target);
  }

  /** The count is the whole length exactly when every element is the target. */
  lemma {:induction false} CountAll(xs: seq<string>, target: string)
    ensures Count(xs, target) == |xs| <==> forall i :: 0 <= i < |xs| ==> xs[i] == target
    decreases |xs|
  {
    if xs != [] {
      CountAll(xs[1..], target);
      if Count(xs, target) == |xs| {
        forall i | 0 <= i < |xs| ensures xs[i] == target {
          if i > 0 { assert xs[i] == xs[1..][i - 1]; }
        }
      }
      if forall i :: 0 <= i < |xs| ==> xs[i] == target {
        forall i | 0 <= i < |xs| - 1 ensures xs[1..][i] == target {
          assert xs[1..][i] == xs[i + 1];
        }
      }
    }
  }

  /** `xs.count(target) / len(xs) if xs else 0`: the share of `xs` that is
      `target`, and 0 for an empty list. */
  function Ratio(xs: seq<string>, target: string): (r: real)
    ensures 0.0 <= r <= 1.0
    ensures xs == [] ==> r == 0.0
  {
    if xs == [] then 0.0
    else
      var c := Count(xs, target);
      DivBounds(c as real, |xs| as real);
      c as real / |xs| as real
  }

  /** The ratio is the number of occurrences of the target divided by the
      length of a non-empty list. */
  lemma RatioIsShare(xs: seq<string>, target: string)
    requires xs != []
    ensures Ratio(xs, target) == multiset(xs)[target] as real / |xs| as real
  {
    CountIsMultiplicity(xs, target);
  }

  /** The ratio is 0 exactly when the target does not occur. */
  lemma RatioZero(xs: seq<string>, target: string)
    ensures Ratio(xs, target) == 0.0 <==> target !in xs
  {
    CountZero(xs, target);
    if xs != [] {
      DivBounds(Count(xs, target) as real, |xs| as real);
    }
  }

  /** The ratio is 1 exactly when the list is non-empty and every element is
      the target. */
  lemma RatioOne(xs: seq<string>, target: string)
    ensures Ratio(xs, target) == 1.0 <==> xs != [] && forall i :: 0 <= i < |xs| ==> xs[i] == target
  {
    CountAll(xs, target);
    if xs != [] {
      DivBounds(Count(xs, target) as real, |xs| as real);
    }
  }

  /** Only elements exactly equal to the target count: appending any other
      label leaves the count as it was. */
  lemma {:induction false} CountIgnoresOtherLabels(xs: seq<string>, y: string, target: string)
    requires y != target
    ensures Count(xs + [y], target) == Count(xs, target)
  {
    CountIsMultiplicity(xs, target);
    CountIsMultiplicity(xs + [y], target);
    assert multiset(xs + [y]) == multiset(xs) + multiset{y};
  }

  /** `"mostly_female"` and `"andy"` are not `"female"`. */
  lemma GenderRatioExample()
    ensures Ratio(["female", "mostly_female", "andy", "male"], "female") == 0.25
  {
  }

  /** One row's entry of the column: the language model's ratio minus the
      scholar search's ratio. */
  function DiffValue(row: Observation, attr: Attribute): (d: real)
    ensures -1.0 <= d <= 1.0
  {
    var scholarRatio := Ratio(ScholarLabels(row, attr), Target(attr));
    var aiRatio := Ratio(AiLabels(row, attr), Target(attr));
    aiRatio - scholarRatio
  }

  /** A row where neither list holds the target label (in particular one
      with no co-authors at all) gets 0. */
  lemma DiffValueZero(row: Observation, attr: Attribute)
    requires Target(attr) !in ScholarLabels(row, attr) && Target(attr) !in AiLabels(row, attr)
    ensures DiffValue(row, attr) == 0.0
  {
    RatioZero(ScholarLabels(row, attr), Target(attr));
    RatioZero(AiLabels(row, attr), Target(attr));
  }

  /** The whole column: one value per row, each from that row alone. */
  function DiffColumn(rows: seq<Observation>, attr: Attribute): (column: seq<real>)
    ensures |column| == |rows|
    ensures forall i :: 0 <= i < |rows| ==> -1.0 <= column[i] <= 1.0
  {
    seq(|rows|, i requires 0 <= i < |rows| => DiffValue(rows[i], attr))
  }

  /** `df[name] = 0`, then, row by row, `df.at[index, name] = aiRatio - scholarRatio`.
      The rows are only read; the column's earlier contents do not matter. */
  method WriteDiffRatio(rows: array<Observation>, column: array<real>, attr: Attribute)
    requires column.Length == rows.Length
    modifies column
    ensures column[..] == DiffColumn(rows[..], attr)
    ensures rows[..] == old(rows[..])
  {
    forall i | 0 <= i < column.Length {
      column[i] := 0.0;
    }
    var index := 0;
    while index < rows.Length
      invariant 0 <= index <= rows.Length
      invariant forall i :: 0 <= i < index ==> column[i] == DiffValue(rows[i], attr)
      invariant forall i :: index <= i < column.Length ==> column[i] == 0.0
    {
      var row := rows[index];
      var scholarRatio := Ratio(ScholarLabels(row, attr), Target(attr));
      var aiRatio := Ratio(AiLabels(row, attr), Target(attr));
      column[index] := aiRatio - scholarRatio;
      index := index + 1;
    }
    assert forall i :: 0 <= i < rows.Length ==> column[..][i] == DiffColumn(rows[..], attr)[i];
  }

  /** Computing a column twice over the same rows gives the same values. */
  method WriteDiffRatioTwice(rows: array<Observation>, column: array<real>, attr: Attribute)
    returns (first: seq<real>, second: seq<real>)
    requires column.Length == rows.Length
    modifies column
    ensures first == second
    ensures second == column[..]
  {
    WriteDiffRatio(rows, column, attr);
    first := column[..];
    WriteDiffRatio(rows, column, attr);
    second := column[..];
  }

  /** `column.max()`. */
  function MaxOf(values: seq<real>): (m: real)
    requires values != []
    ensures m in values
    ensures forall i :: 0 <= i < |values| ==> values[i] <= m
    decreases |values|
  {
    if |values| == 1 then values[0]
    else
      var rest := MaxOf(values[1..]);
      if values[0] > rest then values[0] else rest
  }

  /** `column.min()`. */
  function MinOf(values: seq<real>): (m: real)
    requires values != []
    ensures m in values
    ensures forall i :: 0 <= i < |values| ==> m <= values[i]
    decreases |values|
  {
    if |values| == 1 then values[0]
    else
      var rest := MinOf(values[1..]);
      if values[0] < rest then values[0] else rest
  }

  /** Python's `int(x)` on a float: truncation toward zero. */
  function TruncToInt(x: real): (n: int)
    ensures 0.0 <= x ==> 0 <= n && n as real <= x < n as real + 1.0
    ensures x < 0.0 ==> n <= 0 && n as real - 1.0 < x <= n as real
  {
    if 0.0 <= x then x.Floor else -((-x).Floor)
  }

  /** `max(1, int((column.max() - column.min()) / bin_width))`: at least one
      bin; exactly one when the values span less than one bin width (so
      always when they are all equal); otherwise the span divided by the bin
      width, rounded down. */
  function NumBins(column: seq<real>, binWidth: real): (n: int)
    requires column != [] && 0.0 < binWidth
    ensures n >= 1
    ensures MaxOf(column) - MinOf(column) < binWidth ==> n == 1
    ensures binWidth <= MaxOf(column) - MinOf(column) ==>
      n as real <= (MaxOf(column) - MinOf(column)) / binWidth < (n + 1) as real
  {
    var dataRange := MaxOf(column) - MinOf(column);
    assert MinOf(column) <= column[0] <= MaxOf(column);
    BinsForRange(dataRange, binWidth)
  }

  /** `max(1, int(data_range / bin_width))` for a non-negative range. */
  function BinsForRange(dataRange: real, binWidth: real): (n: int)
    requires 0.0 <= dataRange && 0.0 < binWidth
    ensures n >= 1
    ensures dataRange < binWidth ==> n == 1
    ensures binWidth <= dataRange ==> n as real <= dataRange / binWidth < (n + 1) as real
  {
    var numBins := TruncToInt(dataRange / binWidth);
    BelowOneWidth(dataRange, binWidth);
    if 1 < numBins then numBins else 1
  }

  /** In the many-bin case the bins fit the span: `num_bins * bin_width <=
      max - min < (num_bins + 1) * bin_width`. */
  lemma NumBinsCoverSpan(column: seq<real>, binWidth: real)
    requires column != [] && 0.0 < binWidth
    requires binWidth <= MaxOf(column) - MinOf(column)
    ensures WidthsFit(NumBins(column, binWidth), binWidth, MaxOf(column) - MinOf(column))
  {
    FloorScale(MaxOf(column) - MinOf(column), binWidth, NumBins(column, binWidth));
  }

  /** A column whose values are all equal is drawn with a single bin. */
  lemma ConstantColumnHasOneBin(column: seq<real>, binWidth: real)
    requires column != [] && 0.0 < binWidth
    requires forall i :: 0 <= i < |column| ==> column[i] == column[0]
    ensures NumBins(column, binWidth) == 1
  {
  }

  /** Every ethnicity label of the row is one `ethnicityMap` produces. */
  predicate HasMappedEthnicities(row: Observation) {
    (forall i :: 0 <= i < |row.scholarEthnicities| ==> IsEthnicityLabel(row.scholarEthnicities[i]))
    && (forall i :: 0 <= i < |row.aiEthnicities| ==> IsEthnicityLabel(row.aiEthnicities[i]))
  }

  /** The labels are capitalised and the count looks for lowercase `"white"`,
      so on rows built from `ethnicityMap` both ratios are 0. */
  lemma MappedEthnicityDiffIsZero(row: Observation)
    requires HasMappedEthnicities(row)
    ensures Ratio(row.scholarEthnicities, "white") == 0.0
    ensures Ratio(row.aiEthnicities, "white") == 0.0
    ensures DiffValue(row, Ethnicity) == 0.0
  {
    assert "white" != "White";
    RatioZero(row.scholarEthnicities, "white");
    RatioZero(row.aiEthnicities, "white");
    assert "white" !in row.scholarEthnicities by {
      forall i | 0 <= i < |row.scholarEthnicities| ensures row.scholarEthnicities[i] != "white" {
        assert IsEthnicityLabel(row.scholarEthnicities[i]);
      }
    }
    assert "white" !in row.aiEthnicities by {
      forall i | 0 <= i < |row.aiEthnicities| ensures row.aiEthnicities[i] != "white" {
        assert IsEthnicityLabel(row.aiEthnicities[i]);
      }
    }
  }

  /** Hence on such a table the ethnicity column is all zero and its
      histogram has a single bin, whatever the bin width. */
  lemma MappedEthnicityColumnIsFlat(rows: seq<Observation>, binWidth: real)
    requires rows != [] && 0.0 < binWidth
    requires forall i :: 0 <= i < |rows| ==> HasMappedEthnicities(rows[i])
    ensures forall i :: 0 <= i < |rows| ==> DiffColumn(rows, Ethnicity)[i] == 0.0
    ensures NumBins(DiffColumn(rows, Ethnicity), binWidth) == 1
  {
    var column := DiffColumn(rows, Ethnicity);
    forall i | 0 <= i < |rows| ensures column[i] == 0.0 {
      MappedEthnicityDiffIsZero(rows[i]);
    }
    ConstantColumnHasOneBin(column, binWidth);
  }

  /** `drawGenderDiffRatio(df, bin_width)` without the drawing: fills the
      gender column and returns the number of bins of its histogram. */
  method DrawGenderDiffRatio(rows: array<Observation>, column: array<real>, binWidth: real)
    returns (numBins: int)
    requires 0 < rows.Length && column.Length == rows.Length && 0.0 < binWidth
    modifies column
    ensures column[..] == DiffColumn(rows[..], Gender)
    ensures numBins == NumBins(column[..], binWidth)
  {
    WriteDiffRatio(rows, column, Gender);
    numBins := NumBins(column[..], binWidth);
  }

  /** `drawEthnicityDiffRatio(df, bin_width)` without the drawing. */
  method DrawEthnicityDiffRatio(rows: array<Observation>, column: array<real>, binWidth: real)
    returns (numBins: int)
    requires 0 < rows.Length && column.Length == rows.Length && 0.0 < binWidth
    modifies column
    ensures column[..] == DiffColumn(rows[..], Ethnicity)
    ensures numBins == NumBins(column[..], binWidth)
  {
    WriteDiffRatio(rows, column, Ethnicity);
    numBins := NumBins(column[..], binWidth);
  }
}
