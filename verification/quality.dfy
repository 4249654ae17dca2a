/** The single-table quality checks of the advanced tab (Ht.py lines
    777-790), run on the filtered NetSuite table: per column the missing
    values, the values repeating an earlier one, the negative numbers of a
    numeric column and the empty strings, with their grand totals. */
module Quality {
  import opened Base
  import opened Cells
  import opened Tables

  predicate IsEmptyText(c: Cell) { c == Str("") }

  /** Row `i` holds a value that an earlier row already holds
      (`duplicated()`, first occurrence kept; two missing values count as
      equal). */
  predicate RepeatsEarlier(c: seq<Cell>, i: nat) {
    i < |c| && c[i] in c[..i]
  }

  /** `is_numeric_dtype`: the column is `int64` or `float64`. */
  predicate NumericColumn(c: seq<Cell>) {
    ColumnType(c) != Object
  }

  /** `isnull()` counts blanks and markers alike. */
  function Nulls(c: seq<Cell>): nat {
    Count(c, IsMissing)
  }

  function Duplicates(c: seq<Cell>): nat {
    CountBelow(|c|, (i: nat) => RepeatsEarlier(c, i))
  }

  /** Negative values, counted only in a numeric column. */
  function Negatives(c: seq<Cell>): (n: nat)
    ensures !NumericColumn(c) ==> n == 0
    ensures n <= Count(c, IsNegative)
  {
    if NumericColumn(c) then Count(c, IsNegative) else 0
  }

  function Empties(c: seq<Cell>): nat {
    Count(c, IsEmptyText)
  }

  /** A column is numeric exactly when it holds only numbers and blanks, and
      then each of its negative numbers is counted once; a column holding
      text or a marker counts none. Missing values and empty strings are
      counted position by position. */
  lemma CountsArePositions(c: seq<Cell>)
    ensures NumericColumn(c) <==> forall i :: 0 <= i < |c| ==> c[i].Num? || c[i].Null?
    ensures NumericColumn(c) ==> Negatives(c) == |set i: nat | i < |c| && c[i].Num? && c[i].n < 0|
    ensures Nulls(c) == |set i: nat | i < |c| && (c[i] == Null || c[i] == Na)|
    ensures Empties(c) == |set i: nat | i < |c| && c[i] == Str("")|
  {
    ColumnTypeOfCells(c);
    CountIsCard(c, IsNegative, set i: nat | i < |c| && c[i].Num? && c[i].n < 0);
    CountIsCard(c, IsMissing, set i: nat | i < |c| && (c[i] == Null || c[i] == Na));
    CountIsCard(c, IsEmptyText, set i: nat | i < |c| && c[i] == Str(""));
  }

  /** Every value beyond the first of its kind is a duplicate: a column has
      as many duplicates as it has rows beyond its distinct values. */
  lemma DuplicatesAreRepeats(c: seq<Cell>)
    ensures Duplicates(c) + |Elements(c)| == |c|
  {
    RepeatsUpTo(c, |c|);
    assert c[..|c|] == c;
  }

  lemma {:induction false} RepeatsUpTo(c: seq<Cell>, n: nat)
    requires n <= |c|
    ensures CountBelow(n, (i: nat) => RepeatsEarlier(c, i)) + |Elements(c[..n])| == n
  {
    if n > 0 {
      RepeatsUpTo(c, n - 1);
      var p := c[..n - 1];
      assert c[..n] == p + [c[n - 1]];
      assert Elements(c[..n]) == Elements(p) + {c[n - 1]};
      if c[n - 1] in p {
        assert Elements(c[..n]) == Elements(p);
      } else {
        assert |Elements(c[..n])| == |Elements(p)| + 1;
      }
    }
  }

  /** A column without repeated values has no duplicates, and conversely. */
  lemma NoDuplicatesIffDistinct(c: seq<Cell>)
    ensures Duplicates(c) == 0 <==> Distinct(c)
  {
    DuplicatesAreRepeats(c);
    ElementsCard(c);
  }

  /** A cell is at most one of missing, negative and empty text, so the three
      counts never exceed the rows of the column. */
  lemma ExclusiveIssuesWithinColumn(c: seq<Cell>)
    ensures Nulls(c) + Negatives(c) + Empties(c) <= |c|
  {
    CountDisjoint(c, IsMissing, IsNegative, x => IsMissing(x) || IsNegative(x));
    CountDisjoint(c, x => IsMissing(x) || IsNegative(x), IsEmptyText, x => IsMissing(x) || IsNegative(x) || IsEmptyText(x));
  }

  datatype ColumnCheck = ColumnCheck(name: string, nulls: nat, duplicates: nat, negatives: nat, empties: nat)

  function CheckColumn(name: string, c: seq<Cell>): (r: ColumnCheck)
    ensures r.nulls + r.negatives + r.empties <= |c|
    ensures r.duplicates + |Elements(c)| == |c|
  {
    ExclusiveIssuesWithinColumn(c);
    DuplicatesAreRepeats(c);
    ColumnCheck(name, Nulls(c), Duplicates(c), Negatives(c), Empties(c))
  }

  /** Sum of one count over the column checks. */
  function Total(checks: seq<ColumnCheck>, f: ColumnCheck -> nat): nat {
    if |checks| == 0 then 0 else Total(checks[..|checks| - 1], f) + f(checks[|checks| - 1])
  }

  function NullsOf(k: ColumnCheck): nat { k.nulls }
  function DuplicatesOf(k: ColumnCheck): nat { k.duplicates }
  function NegativesOf(k: ColumnCheck): nat { k.negatives }
  function EmptiesOf(k: ColumnCheck): nat { k.empties }

  /** Per-column bounds add up over the columns. */
  lemma {:induction false} TotalsBounded(checks: seq<ColumnCheck>, n: nat)
    requires forall j :: 0 <= j < |checks| ==> checks[j].nulls + checks[j].negatives + checks[j].empties <= n
    requires forall j :: 0 <= j < |checks| ==> checks[j].duplicates <= n
    ensures Total(checks, NullsOf) + Total(checks, NegativesOf) + Total(checks, EmptiesOf) <= |checks| * n
    ensures Total(checks, DuplicatesOf) <= |checks| * n
  {
    if |checks| > 0 {
      TotalsBounded(checks[..|checks| - 1], n);
      assert |checks| * n == (|checks| - 1) * n + n;
    }
  }

  datatype Report = Report(
    checks: seq<ColumnCheck>,
    totalNulls: nat, totalDuplicates: nat, totalNegatives: nat, totalEmpties: nat,
    totalIssues: nat)

  /** The checks of every column, their grand totals and `total_issues`:
      each grand total adds up its count over the columns. Missing, negative
      and empty cells are exclusive, so their totals stay within the cells of
      the table; duplicates alone also do. */
  function QualityChecks(t: Table): (r: Report)
    requires Wf(t)
    ensures |r.checks| == |t.header|
    ensures forall j :: 0 <= j < |t.header| ==> r.checks[j] == CheckColumn(t.header[j], ColumnAt(t, j))
    ensures r.totalNulls == Total(r.checks, NullsOf)
    ensures r.totalDuplicates == Total(r.checks, DuplicatesOf)
    ensures r.totalNegatives == Total(r.checks, NegativesOf)
    ensures r.totalEmpties == Total(r.checks, EmptiesOf)
    ensures r.totalIssues == r.totalNulls + r.totalDuplicates + r.totalNegatives + r.totalEmpties
    ensures r.totalNulls + r.totalNegatives + r.totalEmpties <= |t.rows| * |t.header|
    ensures r.totalDuplicates <= |t.rows| * |t.header|
  {
    var checks := seq(|t.header|, j requires 0 <= j < |t.header| => CheckColumn(t.header[j], ColumnAt(t, j)));
    TotalsBounded(checks, |t.rows|);
    var nulls := Total(checks, NullsOf);
    var dups := Total(checks, DuplicatesOf);
    var negs := Total(checks, NegativesOf);
    var empties := Total(checks, EmptiesOf);
    Report(checks, nulls, dups, negs, empties, nulls + dups + negs + empties)
  }

  /** The cells of the table satisfying `p`, counted row by row. */
  function CellsWhere(rows: seq<Row>, p: Cell -> bool): nat {
    if |rows| == 0 then 0 else CellsWhere(rows[..|rows| - 1], p) + Count(rows[|rows| - 1], p)
  }

  /** The cells of the first `k` columns satisfying `p`, counted column by
      column. */
  function ColumnsWhere(t: Table, p: Cell -> bool, k: nat): nat
    requires Wf(t) && k <= |t.header|
  {
    if k == 0 then 0 else ColumnsWhere(t, p, k - 1) + Count(ColumnAt(t, k - 1), p)
  }

  /** The column totals of missing values and of empty strings are the
      numbers of such cells in the table, whichever way it is read. */
  lemma TotalsCountCells(t: Table)
    requires Wf(t)
    ensures QualityChecks(t).totalNulls == CellsWhere(t.rows, IsMissing)
    ensures QualityChecks(t).totalEmpties == CellsWhere(t.rows, IsEmptyText)
  {
    var r := QualityChecks(t);
    TotalOfColumns(t, r.checks, NullsOf, IsMissing, |t.header|);
    TotalOfColumns(t, r.checks, EmptiesOf, IsEmptyText, |t.header|);
    ColumnsAreRows(t, IsMissing);
    ColumnsAreRows(t, IsEmptyText);
    assert r.checks[..|t.header|] == r.checks;
  }

  lemma {:induction false} TotalOfColumns(t: Table, checks: seq<ColumnCheck>, f: ColumnCheck -> nat, p: Cell -> bool, k: nat)
    requires Wf(t) && |checks| == |t.header| && k <= |t.header|
    requires forall j :: 0 <= j < |checks| ==> f(checks[j]) == Count(ColumnAt(t, j), p)
    ensures Total(checks[..k], f) == ColumnsWhere(t, p, k)
  {
    if k > 0 {
      TotalOfColumns(t, checks, f, p, k - 1);
      assert checks[..k][..k - 1] == checks[..k - 1];
    }
  }

  lemma {:induction false} ColumnsAreRows(t: Table, p: Cell -> bool)
    requires Wf(t)
    ensures ColumnsWhere(t, p, |t.header|) == CellsWhere(t.rows, p)
    decreases |t.rows|
  {
    if |t.rows| == 0 {
      NoRowsNoCells(t, p, |t.header|);
    } else {
      var last := t.rows[|t.rows| - 1];
      ColumnsAreRows(Table(t.header, t.rows[..|t.rows| - 1]), p);
      DropLastRow(t, p, |t.header|);
      assert last[..|t.header|] == last;
    }
  }

  lemma {:induction false} NoRowsNoCells(t: Table, p: Cell -> bool, k: nat)
    requires Wf(t) && |t.rows| == 0 && k <= |t.header|
    ensures ColumnsWhere(t, p, k) == 0
  {
    if k > 0 {
      NoRowsNoCells(t, p, k - 1);
      assert ColumnAt(t, k - 1) == [];
    }
  }

  /** Removing the last row takes its cells out of every column count. */
  lemma {:induction false} DropLastRow(t: Table, p: Cell -> bool, k: nat)
    requires Wf(t) && |t.rows| > 0 && k <= |t.header|
    ensures ColumnsWhere(t, p, k) ==
            ColumnsWhere(Table(t.header, t.rows[..|t.rows| - 1]), p, k) + Count(t.rows[|t.rows| - 1][..k], p)
  {
    var t' := Table(t.header, t.rows[..|t.rows| - 1]);
    var last := t.rows[|t.rows| - 1];
    if k > 0 {
      DropLastRow(t, p, k - 1);
      assert ColumnAt(t, k - 1) == ColumnAt(t', k - 1) + [last[k - 1]];
      CountAppend(ColumnAt(t', k - 1), [last[k - 1]], p);
      assert last[..k] == last[..k - 1] + [last[k - 1]];
      CountAppend(last[..k - 1], [last[k - 1]], p);
    } else {
      assert last[..0] == [];
    }
  }

  /** A negative number in a column that also holds text is not counted. */
  lemma MixedColumnHidesNegatives()
    ensures Negatives([Num(-5), Str("x")]) == 0
    ensures Negatives([Num(-5), Null]) == 1
  {
    assert [Num(-5), Str("x")][1..] == [Str("x")];
    assert [Num(-5), Null][1..] == [Null];
    assert ColumnType([Num(-5), Str("x")]) == Object;
    assert ColumnType([Num(-5), Null]) == Float64;
  }

  /** A missing value that repeats an earlier missing value is counted both
      as missing and as a duplicate, so `total_issues` can exceed the number
      of cells and `clean_records` can go negative. */
  lemma IssuesCanExceedCells()
    ensures QualityChecks(Table(["a"], [[Null], [Null], [Null]])).totalIssues == 5
  {
    var t := Table(["a"], [[Null], [Null], [Null]]);
    var c := ColumnAt(t, 0);
    assert c == [Null, Null, Null];
    CountAll(c, IsMissing);
    CountNone(c, IsNegative);
    CountNone(c, IsEmptyText);
    assert Duplicates(c) == 2 by {
      DuplicatesAreRepeats(c);
      assert Elements(c) == {Null};
    }
    assert Negatives(c) == 0;
    assert Empties(c) == 0;
    var r := QualityChecks(t);
    var k := CheckColumn("a", c);
    assert k == ColumnCheck("a", 3, 2, 0, 0);
    assert r.checks == [k];
    assert r.checks[..0] == [];
    assert r.totalNulls == 3;
    assert r.totalDuplicates == Total(r.checks, DuplicatesOf) == Total(r.checks[..0], DuplicatesOf) + DuplicatesOf(k) == 2;
    assert r.totalNegatives == 0 && r.totalEmpties == 0;
  }
}
