/** In-memory tables: a header of column names and rows of cells. */
module Tables {
  import opened Base
  import opened Cells

  type Row = seq<Cell>

  datatype Table = Table(header: seq<string>, rows: seq<Row>)

  /** Every row has one cell per column. */
  predicate Wf(t: Table) {
    forall i :: 0 <= i < |t.rows| ==> |t.rows[i]| == |t.header|
  }

  /** What the spreadsheet loader hands over: a rectangular table whose
      column names are unique (the loader renames repeated headers). */
  predicate Loaded(t: Table) {
    Wf(t) && Distinct(t.header)
  }

  /** Position of the first column called `name`, if any. */
  function IndexOf(names: seq<string>, name: string): (r: Option<nat>)
    ensures r.None? <==> name !in names
    ensures r.Some? ==> r.value < |names| && names[r.value] == name && name !in names[..r.value]
  {
    if |names| == 0 then None
    else if names[0] == name then Some(0)
    else
      match IndexOf(names[1..], name)
      case None => None
      case Some(i) =>
        assert names[1..][..i] == names[1..i + 1];
        Some(i + 1)
  }

  /** In a duplicate-free header the position of a name is its only one. */
  lemma IndexOfDistinct(names: seq<string>, j: nat)
    requires Distinct(names) && j < |names|
    ensures IndexOf(names, names[j]) == Some(j)
  {
  }

  /** A position holding `name` with no earlier occurrence is the one found. */
  lemma IndexOfFirst(names: seq<string>, name: string, x: nat)
    requires x < |names| && names[x] == name && name !in names[..x]
    ensures IndexOf(names, name) == Some(x)
  {
  }

  /** Appending names after a header does not move the names it already has. */
  lemma IndexOfPrefix(a: seq<string>, b: seq<string>, name: string)
    requires name in a
    ensures IndexOf(a + b, name) == IndexOf(a, name)
  {
    var x := IndexOf(a, name).value;
    assert (a + b)[..x] == a[..x];
    IndexOfFirst(a + b, name, x);
  }

  /** The cells of column `j`, top to bottom. */
  function ColumnAt(t: Table, j: nat): (c: seq<Cell>)
    requires Wf(t) && j < |t.header|
    ensures |c| == |t.rows|
    ensures forall i :: 0 <= i < |t.rows| ==> c[i] == t.rows[i][j]
  {
    seq(|t.rows|, i requires 0 <= i < |t.rows| => t.rows[i][j])
  }

  /** The cells of the first column called `name`, as `df[name]` selects them. */
  function Column(t: Table, name: string): (c: Option<seq<Cell>>)
    requires Wf(t)
    ensures c.Some? <==> name in t.header
    ensures c.Some? ==> |c.value| == |t.rows|
  {
    match IndexOf(t.header, name)
    case None => None
    case Some(j) => Some(ColumnAt(t, j))
  }
}
