/** The acreage rule of SelectTopAgr (SelectTop.py): the candidate regions,
    already sorted by mean agricultural score from highest to lowest, get an
    ACRES field, a running CUM_ACRES total and a SELECTION flag, and the rows
    flagged 1 are kept. The result is the longest run of top-scored regions
    whose total stays within 500,000 acres.

    The raster steps before the sort are represented only by the filters they
    apply (a cell scores above 80, a region covers at least 80937.1 square
    meters); what the engine does is otherwise taken as given. */
module SelectTop {

  /** Acres in one square meter. */
  const AcresPerSquareMeter: real := 0.000247105

  /** The acreage to select: 500,000 acres. */
  const AcreageGoal: real := 500000.0

  /** 20 acres in square meters: the smallest region considered. */
  const MinRegionArea: real := 80937.1

  /** A cell is kept when its score is above this. */
  const MinScore: real := 80.0

  /** The acreage of the smallest region considered, written out as a literal
      so that multiples of it stay linear arithmetic (see MinAcresValue). */
  const MinAcres: real := 19.9999620955

  lemma MinAcresValue()
    ensures MinAcres == MinRegionArea * AcresPerSquareMeter
  {
  }

  /** A polygon of the sorted table: the mean score of its region (MEAN) and
      its area in square meters (Shape_Area). */
  datatype Polygon = Polygon(mean: real, shapeArea: real)

  /** A row of the sorted table once the three fields are calculated. */
  datatype Row = Row(poly: Polygon, acres: real, cumAcres: real, selection: int)

  // ---------------------------------------------------------------------
  // The filters of the raster steps

  /** Con(in_FarmAgrVal > 80, 1): the cells that stay in the analysis. */
  predicate HighScore(cell: real) { cell > MinScore }

  /** Con(regionSize >= 80937.1, regionRast): the regions that stay. */
  predicate LargeEnough(regionArea: real) { regionArea >= MinRegionArea }

  /** A polygon that can reach the sorted table: a large enough region whose
      cells all scored above 80, so whose mean is above 80. */
  predicate IsCandidate(p: Polygon) { p.mean > MinScore && LargeEnough(p.shapeArea) }

  function Sum(s: seq<real>): real {
    if s == [] then 0.0 else Sum(s[..|s| - 1]) + s[|s| - 1]
  }

  /** The zonal mean of a region's cells. */
  function Mean(cells: seq<real>): real
    requires |cells| > 0
  {
    Sum(cells) / |cells| as real
  }

  lemma {:induction false} SumAbove(cells: seq<real>)
    requires forall i :: 0 <= i < |cells| ==> HighScore(cells[i])
    ensures cells != [] ==> Sum(cells) > |cells| as real * MinScore
  {
    if cells != [] {
      SumAbove(cells[..|cells| - 1]);
    }
  }

  /** A region made only of cells scoring above 80 has a mean above 80, so
      its polygon meets the score half of IsCandidate. */
  lemma MeanOfHighCells(cells: seq<real>)
    requires |cells| > 0
    requires forall i :: 0 <= i < |cells| ==> HighScore(cells[i])
    ensures HighScore(Mean(cells))
  {
    SumAbove(cells);
    QuotientAbove(Sum(cells), |cells| as real, MinScore);
  }

  lemma QuotientAbove(a: real, n: real, c: real)
    requires n > 0.0 && a > n * c
    ensures a / n > c
  {
    assert a / n == c + (a - n * c) / n;
  }

  // ---------------------------------------------------------------------
  // The three calculated fields

  /** ACRES: the area in acres, never negative for a real polygon, and at
      least MinAcres (about 20 acres) for a candidate. */
  function Acres(p: Polygon): (a: real)
    ensures p.shapeArea >= 0.0 ==> a >= 0.0
    ensures IsCandidate(p) ==> a >= MinAcres
  {
    p.shapeArea * AcresPerSquareMeter
  }

  /** The ACRES column of a table. */
  function AcresColumn(ps: seq<Polygon>): (acres: seq<real>)
    ensures |acres| == |ps|
  {
    seq(|ps|, i requires 0 <= i < |ps| => Acres(ps[i]))
  }

  /** The select() code block: 1 when the running total is within the goal,
      0 when it is over. */
  function Select(cumAcres: real): (s: int)
    ensures (s == 1) == (cumAcres <= AcreageGoal)
    ensures (s == 0) == (cumAcres > AcreageGoal)
  {
    if cumAcres <= AcreageGoal then 1 else 0
  }

  /** The accumulate() code block run over a column: a running total that
      starts at 0 and adds each row's value, top to bottom. */
  method Accumulate(values: seq<real>) returns (cum: seq<real>)
    ensures |cum| == |values|
    ensures forall i :: 0 <= i < |values| ==> cum[i] == RunningTotal(values, i)
  {
    var cumVal := 0.0;
    cum := [];
    for i := 0 to |values|
      invariant |cum| == i
      invariant cumVal == Sum(values[..i])
      invariant forall j :: 0 <= j < i ==> cum[j] == RunningTotal(values, j)
    {
      cumVal := cumVal + values[i];
      assert values[..i + 1][..i] == values[..i];
      cum := cum + [cumVal];
    }
  }

  /** CUM_ACRES of row i: the total of rows 0 to i. */
  function RunningTotal(values: seq<real>, i: nat): real
    requires i < |values|
  {
    Sum(values[..i + 1])
  }

  /** Row i of the sorted table with ACRES, CUM_ACRES and SELECTION. */
  function FieldRow(ps: seq<Polygon>, i: nat): Row
    requires i < |ps|
  {
    var cum := RunningTotal(AcresColumn(ps), i);
    Row(ps[i], Acres(ps[i]), cum, Select(cum))
  }

  /** The sorted table with its three calculated fields, in closed form. */
  function FieldTable(ps: seq<Polygon>): (table: seq<Row>)
    ensures |table| == |ps|
    ensures forall i :: 0 <= i < |ps| ==> table[i] == FieldRow(ps, i)
  {
    seq(|ps|, i requires 0 <= i < |ps| => FieldRow(ps, i))
  }

  /** Select_analysis with the query "SELECTION = 1". */
  function SelectWhere(table: seq<Row>): (out: seq<Row>)
    ensures |out| <= |table|
    ensures forall r :: r in out <==> r in table && r.selection == 1
  {
    if table == [] then []
    else
      var front := table[..|table| - 1];
      var last := table[|table| - 1];
      assert table == front + [last];
      SelectWhere(front) + if last.selection == 1 then [last] else []
  }

  /** The query keeps a single row exactly when its SELECTION is 1. */
  lemma SelectWhereSingleton(r: Row)
    ensures SelectWhere([r]) == if r.selection == 1 then [r] else []
  {
    assert [r][..0] == [];
  }

  /** The query works row by row: on two tables one after the other it gives
      the rows kept from the first, then those kept from the second, each in
      table order and once per occurrence. */
  lemma {:induction false} SelectWhereAppend(a: seq<Row>, b: seq<Row>)
    ensures SelectWhere(a + b) == SelectWhere(a) + SelectWhere(b)
  {
    if b == [] {
      assert a + b == a;
    } else {
      var front := b[..|b| - 1];
      var last := b[|b| - 1];
      assert (a + b)[..|a + b| - 1] == a + front;
      assert (a + b)[|a + b| - 1] == last;
      SelectWhereAppend(a, front);
    }
  }

  /** SelectTopAgr from the sorted polygons on: the three field calculations
      and the final selection. Given polygons of non-negative area, the output
      is the longest leading run of the sorted table whose acreage stays
      within the goal, rows unchanged and in their table order; and when the
      table is sorted by score, no row left out scores above a row kept. */
  method SelectTopAgr(sortedPolys: seq<Polygon>) returns (table: seq<Row>, outPolys: seq<Row>)
    ensures table == FieldTable(sortedPolys)
    ensures outPolys == SelectWhere(table)
    ensures forall r :: r in outPolys ==> r.selection == 1 && r.cumAcres <= AcreageGoal
    ensures NonNegativeAreas(sortedPolys) ==>
      && outPolys == table[..|outPolys|]
      && Sum(RowAcres(outPolys)) <= AcreageGoal
      && (|outPolys| < |sortedPolys| ==> Sum(RowAcres(table[..|outPolys| + 1])) > AcreageGoal)
    ensures NonNegativeAreas(sortedPolys) && SortedByScore(sortedPolys) ==>
      forall a, i :: 0 <= a < |outPolys| && 0 <= i < |table| && table[i].selection != 1 ==>
        outPolys[a].poly.mean >= table[i].poly.mean
  {
    table := CalculateFields(sortedPolys);
    // Select_analysis(sortedPolys, out_Polys, "SELECTION = 1")
    outPolys := SelectWhere(table);
    SelectedWithinGoal(table);
    if NonNegativeAreas(sortedPolys) {
      TopSelection(sortedPolys);
      if SortedByScore(sortedPolys) {
        SelectionRespectsScore(sortedPolys);
      }
    }
  }

  /** The three CalculateField_management steps, one column after another. */
  method CalculateFields(sortedPolys: seq<Polygon>) returns (table: seq<Row>)
    ensures table == FieldTable(sortedPolys)
  {
    // ACRES = !Shape_Area! * 0.000247105
    var acres := AcresColumn(sortedPolys);
    // CUM_ACRES = accumulate(!ACRES!)
    var cum := Accumulate(acres);
    // SELECTION = select(!CUM_ACRES!)
    table := seq(|sortedPolys|, i requires 0 <= i < |sortedPolys| =>
      Row(sortedPolys[i], acres[i], cum[i], Select(cum[i])));
    assert forall i :: 0 <= i < |table| ==> table[i] == FieldRow(sortedPolys, i);
  }

  /** Every row the query keeps has SELECTION 1, so its CUM_ACRES is within
      the goal. */
  lemma SelectedWithinGoal(table: seq<Row>)
    requires forall i :: 0 <= i < |table| ==> table[i].selection == Select(table[i].cumAcres)
    ensures forall r :: r in SelectWhere(table) ==> r.selection == 1 && r.cumAcres <= AcreageGoal
  {
    forall r | r in SelectWhere(table) ensures r.selection == 1 && r.cumAcres <= AcreageGoal {
      assert r in table;
    }
  }

  // ---------------------------------------------------------------------
  // What the rule guarantees

  predicate NonNegativeAreas(ps: seq<Polygon>) {
    forall i :: 0 <= i < |ps| ==> ps[i].shapeArea >= 0.0
  }

  /** The order Sort_management leaves the table in: MEAN descending. */
  predicate SortedByScore(ps: seq<Polygon>) {
    forall i, j :: 0 <= i < j < |ps| ==> ps[i].mean >= ps[j].mean
  }

  /** The ACRES values of some rows. */
  function RowAcres(rows: seq<Row>): (acres: seq<real>)
    ensures |acres| == |rows|
  {
    seq(|rows|, i requires 0 <= i < |rows| => rows[i].acres)
  }

  /** A running total of non-negative values never decreases. */
  lemma {:induction false} SumPrefixMonotone(s: seq<real>, i: nat, j: nat)
    requires forall k :: 0 <= k < |s| ==> s[k] >= 0.0
    requires i <= j <= |s|
    ensures Sum(s[..i]) <= Sum(s[..j])
  {
    if i < j {
      SumPrefixMonotone(s, i, j - 1);
      assert s[..j][..j - 1] == s[..j - 1];
    }
  }

  /** CUM_ACRES never decreases down the table when the areas are
      non-negative. */
  lemma CumAcresMonotone(ps: seq<Polygon>, i: nat, j: nat)
    requires NonNegativeAreas(ps)
    requires i <= j < |ps|
    ensures FieldRow(ps, i).cumAcres <= FieldRow(ps, j).cumAcres
  {
    SumPrefixMonotone(AcresColumn(ps), i + 1, j + 1);
  }

  /** The selected rows form a leading run of the table: every row above a
      selected row is selected. */
  lemma SelectionIsPrefix(ps: seq<Polygon>, i: nat, j: nat)
    requires NonNegativeAreas(ps)
    requires i <= j < |ps|
    requires FieldRow(ps, j).selection == 1
    ensures FieldRow(ps, i).selection == 1
  {
    CumAcresMonotone(ps, i, j);
  }

  /** The first row, from row `from` on, whose running total is over the goal
      (|values| when there is none). */
  function FirstOver(values: seq<real>, from: nat): (k: nat)
    requires from <= |values|
    ensures from <= k <= |values|
    ensures forall i :: from <= i < k ==> RunningTotal(values, i) <= AcreageGoal
    ensures k < |values| ==> RunningTotal(values, k) > AcreageGoal
    decreases |values| - from
  {
    if from == |values| || RunningTotal(values, from) > AcreageGoal then from
    else FirstOver(values, from + 1)
  }

  /** Filtering a table whose flagged rows are exactly its first k rows
      gives those k rows. */
  lemma {:induction false} SelectWherePrefix(table: seq<Row>, k: nat)
    requires k <= |table|
    requires forall i :: 0 <= i < k ==> table[i].selection == 1
    requires forall i :: k <= i < |table| ==> table[i].selection != 1
    ensures SelectWhere(table) == table[..k]
  {
    if table != [] {
      var front := table[..|table| - 1];
      if k == |table| {
        SelectWherePrefix(front, k - 1);
        assert front[..k - 1] + [table[|table| - 1]] == table[..k];
      } else {
        SelectWherePrefix(front, k);
        assert front[..k] == table[..k];
      }
    }
  }

  /** For non-negative areas the selected rows are exactly the rows before
      the first whose running total exceeds the goal. */
  lemma SelectionBoundary(ps: seq<Polygon>)
    requires NonNegativeAreas(ps)
    ensures SelectWhere(FieldTable(ps)) == FieldTable(ps)[..FirstOver(AcresColumn(ps), 0)]
  {
    var acres := AcresColumn(ps);
    var table := FieldTable(ps);
    var k := FirstOver(acres, 0);
    forall i | 0 <= i < k ensures table[i].selection == 1 {
      assert table[i] == FieldRow(ps, i);
    }
    forall i | k <= i < |table| ensures table[i].selection != 1 {
      assert table[i] == FieldRow(ps, i);
      SumPrefixMonotone(acres, k + 1, i + 1);
    }
    SelectWherePrefix(table, k);
  }

  /** The ACRES of the first n rows of the table are the first n values of
      the ACRES column. */
  lemma RowAcresPrefix(ps: seq<Polygon>, n: nat)
    requires n <= |ps|
    ensures RowAcres(FieldTable(ps)[..n]) == AcresColumn(ps)[..n]
  {
    var table := FieldTable(ps);
    forall i | 0 <= i < n ensures RowAcres(table[..n])[i] == AcresColumn(ps)[..n][i] {
      assert table[i] == FieldRow(ps, i);
    }
  }

  /** The greedy rule: for polygons of non-negative area the output is the
      first k rows of the table, unchanged and in order, for the k at which
      the running total first exceeds 500,000 acres (all rows when it never
      does); so the output's acreage is within the goal, and the next row
      would have taken it over. */
  lemma TopSelection(ps: seq<Polygon>)
    requires NonNegativeAreas(ps)
    ensures var table := FieldTable(ps);
      var out := SelectWhere(table);
      && out == table[..|out|]
      && Sum(RowAcres(out)) <= AcreageGoal
      && (|out| < |ps| ==> Sum(RowAcres(table[..|out| + 1])) > AcreageGoal)
  {
    var acres := AcresColumn(ps);
    var table := FieldTable(ps);
    var k := FirstOver(acres, 0);
    SelectionBoundary(ps);
    RowAcresPrefix(ps, k);
    if k > 0 {
      assert RunningTotal(acres, k - 1) <= AcreageGoal;
    }
    if k < |ps| {
      RowAcresPrefix(ps, k + 1);
      assert RunningTotal(acres, k) > AcreageGoal;
    }
  }

  /** With the table sorted by MEAN descending, every row kept scores at
      least as high as every row left out. */
  lemma SelectionRespectsScore(ps: seq<Polygon>)
    requires NonNegativeAreas(ps) && SortedByScore(ps)
    ensures var table := FieldTable(ps);
      var out := SelectWhere(table);
      forall a, i :: 0 <= a < |out| && 0 <= i < |table| && table[i].selection != 1 ==>
        out[a].poly.mean >= table[i].poly.mean
  {
    var table := FieldTable(ps);
    var out := SelectWhere(table);
    SelectionBoundary(ps);
    forall a, i | 0 <= a < |out| && 0 <= i < |table| && table[i].selection != 1
      ensures out[a].poly.mean >= table[i].poly.mean
    {
      assert i >= |out|;
      assert out[a] == table[a];
    }
  }

  lemma {:induction false} SumAtLeastMinAcres(s: seq<real>)
    requires forall i :: 0 <= i < |s| ==> s[i] >= MinAcres
    ensures Sum(s) >= |s| as real * MinAcres
  {
    if s != [] {
      SumAtLeastMinAcres(s[..|s| - 1]);
    }
  }

  lemma SelectedCount(ps: seq<Polygon>)
    requires NonNegativeAreas(ps)
    ensures |SelectWhere(FieldTable(ps))| == FirstOver(AcresColumn(ps), 0)
  {
    SelectionBoundary(ps);
  }

  /** The acreage of the rows before the first one over the goal is within
      the goal. */
  lemma LeadingTotalWithinGoal(values: seq<real>)
    ensures Sum(values[..FirstOver(values, 0)]) <= AcreageGoal
  {
    var k := FirstOver(values, 0);
    if k > 0 {
      assert RunningTotal(values, k - 1) <= AcreageGoal;
      assert values[..k - 1 + 1] == values[..k];
    }
  }

  lemma CandidateAcreage(ps: seq<Polygon>, k: nat)
    requires k <= |ps|
    requires forall i :: 0 <= i < |ps| ==> IsCandidate(ps[i])
    ensures Sum(AcresColumn(ps)[..k]) >= k as real * MinAcres
  {
    var acres := AcresColumn(ps)[..k];
    forall i | 0 <= i < k ensures acres[i] >= MinAcres {
      assert acres[i] == Acres(ps[i]);
    }
    SumAtLeastMinAcres(acres);
  }

  /** When every polygon is a candidate (at least about 20 acres), the
      output holds at most AcreageGoal / MinAcres rows, about 25,000. */
  lemma CandidateCountBound(ps: seq<Polygon>)
    requires forall i :: 0 <= i < |ps| ==> IsCandidate(ps[i])
    ensures |SelectWhere(FieldTable(ps))| as real * MinAcres <= AcreageGoal
  {
    var k := FirstOver(AcresColumn(ps), 0);
    assert NonNegativeAreas(ps);
    SelectedCount(ps);
    LeadingTotalWithinGoal(AcresColumn(ps));
    CandidateAcreage(ps, k);
  }
}
