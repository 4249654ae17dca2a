/** Preparing the two tables for comparison (Ht.py lines 177-205): the
    account filter, the choice of merge key, the list of fields both tables
    are cut down to, and the reindexing that gives both tables exactly those
    columns. */
module Alignment {
  import opened Base
  import opened Cells
  import opened Tables
  import opened Profiler

  /** Python truthiness of an optional column name: present and not empty. */
  predicate Truthy(o: Option<string>) {
    o.Some? && o.value != ""
  }

  datatype AlignError =
    | UnknownColumn(name: string)  // a column read from a table that lacks it
    | DuplicateLabels              // reindexing a table whose header repeats a name
    | MissingKey                   // no merge key, or the key is absent after reindexing

  // ---------------------------------------------------------------- filter

  predicate HasValueAt(row: Row, j: nat, values: seq<Cell>) {
    j < |row| && row[j] in values
  }

  /** The rows whose cell in column `j` is one of `values`
      (`df[df[col].isin(values)]`), in their original order. */
  function SelectRows(t: Table, j: nat, values: seq<Cell>): (r: Table)
    requires Wf(t) && j < |t.header|
    ensures r.header == t.header && Wf(r)
    ensures forall row :: row in r.rows <==> row in t.rows && HasValueAt(row, j, values)
    ensures |r.rows| == Count(t.rows, row => HasValueAt(row, j, values))
  {
    var rows := Filter(t.rows, row => HasValueAt(row, j, values));
    assert forall i :: 0 <= i < |rows| ==> |rows[i]| == |t.header| by {
      forall i | 0 <= i < |rows| ensures |rows[i]| == |t.header| {
        assert rows[i] in t.rows;
      }
    }
    Table(t.header, rows)
  }

  /** The rows the filter drops. */
  function DroppedRows(t: Table, j: nat, values: seq<Cell>): seq<Row> {
    Filter(t.rows, row => !HasValueAt(row, j, values))
  }

  /** Every row is either kept or dropped, never both and never neither. */
  lemma SelectRowsConserves(t: Table, j: nat, values: seq<Cell>)
    requires Wf(t) && j < |t.header|
    ensures |SelectRows(t, j, values).rows| + |DroppedRows(t, j, values)| == |t.rows|
  {
    CountComplement(t.rows, row => HasValueAt(row, j, values), row => !HasValueAt(row, j, values));
  }

  /** Applying the same filter a second time changes nothing. */
  lemma SelectRowsIdempotent(t: Table, j: nat, values: seq<Cell>)
    requires Wf(t) && j < |t.header|
    ensures SelectRows(SelectRows(t, j, values), j, values) == SelectRows(t, j, values)
  {
    FilterIdempotent(t.rows, row => HasValueAt(row, j, values));
  }

  datatype Sources = Sources(ns: Table, sf: Table)

  /** The account filter: with a non-empty selection of accounts and an
      account column, NetSuite rows are kept when their account is selected,
      and Salesforce rows likewise when Salesforce has that column. */
  function AccountFilter(s: Sources, accountCol: Option<string>, values: seq<Cell>): (r: Result<Sources, AlignError>)
    requires Wf(s.ns) && Wf(s.sf)
    ensures |values| == 0 || !Truthy(accountCol) ==> r == Ok(s)
    ensures r.Err? <==> |values| > 0 && Truthy(accountCol) && accountCol.value !in s.ns.header
    ensures r.Ok? ==> r.value.ns.header == s.ns.header && r.value.sf.header == s.sf.header
    ensures r.Ok? ==> Wf(r.value.ns) && Wf(r.value.sf)
    ensures r.Ok? && |values| > 0 && Truthy(accountCol) ==>
              forall row :: row in r.value.ns.rows <==>
                row in s.ns.rows && HasValueAt(row, IndexOf(s.ns.header, accountCol.value).value, values)
    ensures r.Ok? && |values| > 0 && Truthy(accountCol) && accountCol.value in s.sf.header ==>
              forall row :: row in r.value.sf.rows <==>
                row in s.sf.rows && HasValueAt(row, IndexOf(s.sf.header, accountCol.value).value, values)
    ensures r.Ok? && accountCol.Some? && accountCol.value !in s.sf.header ==> r.value.sf == s.sf
  {
    if |values| == 0 || !Truthy(accountCol) then Ok(s)
    else
      match IndexOf(s.ns.header, accountCol.value)
      case None => Err(UnknownColumn(accountCol.value))
      case Some(j) =>
        var ns := SelectRows(s.ns, j, values);
        match IndexOf(s.sf.header, accountCol.value)
        case None => Ok(Sources(ns, s.sf))
        case Some(k) => Ok(Sources(ns, SelectRows(s.sf, k, values)))
  }

  // ---------------------------------------------------------------- fields

  /** `primary_cols[0]`: the column ranked first, if there is one. */
  function MergeKey(primary: seq<string>): (k: Option<string>)
    ensures k.Some? <==> |primary| > 0
    ensures k.Some? ==> k.value in primary
  {
    if |primary| > 0 then Some(primary[0]) else None
  }

  /** The merge key of a profiled table is the first column of its ranking:
      the column with the highest uniqueness score, and the leftmost one
      among columns sharing that score. */
  lemma MergeKeyIsMostUnique(t: Table)
    requires Wf(t) && |t.header| > 0
    ensures var p := ProfileTable(t);
            p.order[0].pos < |t.header| && MergeKey(p.tiers.primary) == Some(t.header[p.order[0].pos])
    ensures var j := ProfileTable(t).order[0].pos;
            forall k :: 0 <= k < |t.header| ==> UniquenessScore(ColumnAt(t, k)) <= UniquenessScore(ColumnAt(t, j))
    ensures var j := ProfileTable(t).order[0].pos;
            forall k :: 0 <= k < j ==> UniquenessScore(ColumnAt(t, k)) < UniquenessScore(ColumnAt(t, j))
  {
    var p := ProfileTable(t);
    var j := p.order[0].pos;
    var names := Names(p.order);
    assert (p.tiers.primary + p.tiers.secondary + p.tiers.tertiary)[0] == names[0];
    forall k | 0 <= k < |t.header|
      ensures UniquenessScore(ColumnAt(t, k)) <= UniquenessScore(ColumnAt(t, j))
      ensures k < j ==> UniquenessScore(ColumnAt(t, k)) < UniquenessScore(ColumnAt(t, j))
    {
      assert Scores(t)[k] in multiset(p.order);
      var i :| 0 <= i < |p.order| && p.order[i] == Scores(t)[k];
    }
  }

  /** What the sidebar produced: the fields ticked in each tier and the key,
      date and account columns. */
  datatype Selection = Selection(
    primary: seq<string>, secondary: seq<string>, tertiary: seq<string>,
    key: Option<string>, dateCol: Option<string>, accountCol: Option<string>)

  /** The union of the ticked fields, each once. */
  function SelectedFields(sel: Selection): (r: seq<string>)
    ensures Distinct(r)
    ensures forall c :: c in r <==> c in sel.primary || c in sel.secondary || c in sel.tertiary
  {
    Dedup(sel.primary + sel.secondary + sel.tertiary)
  }

  /** The name held by a truthy option, as a one-element list, unless
      `present` already has it. */
  function Extra(o: Option<string>, present: seq<string>): (r: seq<string>)
    ensures |r| <= 1
    ensures forall c :: c in r <==> Truthy(o) && c == o.value && c !in present
  {
    if Truthy(o) && o.value !in present then [o.value] else []
  }

  /** The option holds the column name `c`. */
  predicate Designates(o: Option<string>, c: string) {
    Truthy(o) && o.value == c
  }

  predicate NonEmpty(c: string) {
    c != ""
  }

  /** `all_fields` as the code builds it: each of key, date and account
      column is appended when it is truthy and not among the selected fields,
      but the three are not checked against one another. */
  function AllFieldsAsWritten(fields: seq<string>, sel: Selection): (r: seq<string>)
    ensures forall c :: c in r <==>
              c != "" && (c in fields || Designates(sel.key, c) || Designates(sel.dateCol, c) || Designates(sel.accountCol, c))
  {
    var extras := Extra(sel.key, fields) + Extra(sel.dateCol, fields) + Extra(sel.accountCol, fields);
    Filter(fields + extras, NonEmpty)
  }

  /** When the key, date and account column are one column, unticked, it is
      appended twice and `all_fields` repeats a name. */
  lemma AllFieldsAsWrittenRepeats()
    ensures AllFieldsAsWritten(["amount"], Selection([], [], [], Some("close_date"), Some("close_date"), None))
            == ["amount", "close_date", "close_date"]
    ensures !Distinct(AllFieldsAsWritten(["amount"], Selection([], [], [], Some("close_date"), Some("close_date"), None)))
  {
    var sel := Selection([], [], [], Some("close_date"), Some("close_date"), None);
    assert Extra(sel.key, ["amount"]) == ["close_date"];
    assert Extra(sel.dateCol, ["amount"]) == ["close_date"];
    assert Extra(sel.accountCol, ["amount"]) == [];
    var all := ["amount"] + (["close_date"] + ["close_date"] + []);
    assert all == ["amount", "close_date", "close_date"];
    FilterAll(all, NonEmpty);
    assert AllFieldsAsWritten(["amount"], sel) == Filter(all, NonEmpty);
    assert all[1] == all[2];
  }

  /** The extra columns with each one checked against everything before it:
      whichever of key, date and account column is new, each once. */
  function Extras(fields: seq<string>, sel: Selection): (r: seq<string>)
    ensures forall c :: c in r <==>
              c !in fields && (Designates(sel.key, c) || Designates(sel.dateCol, c) || Designates(sel.accountCol, c))
    ensures Distinct(fields) ==> Distinct(fields + r)
  {
    var e1 := Extra(sel.key, fields);
    var e2 := Extra(sel.dateCol, fields + e1);
    var e3 := Extra(sel.accountCol, fields + e1 + e2);
    assert Distinct(fields) ==> Distinct(fields + (e1 + e2 + e3)) by {
      if Distinct(fields) {
        DistinctConcat(fields, e1);
        DistinctConcat(fields + e1, e2);
        DistinctConcat(fields + e1 + e2, e3);
        assert fields + e1 + e2 + e3 == fields + (e1 + e2 + e3);
      }
    }
    e1 + e2 + e3
  }

  /** `all_fields` as evidently intended: the selected fields in their
      order, then the key, date and account columns that are new, each once,
      so a list without repetition stays without repetition. */
  function AllFields(fields: seq<string>, sel: Selection): (r: seq<string>)
    ensures forall c :: c in r <==>
              c != "" && (c in fields || Designates(sel.key, c) || Designates(sel.dateCol, c) || Designates(sel.accountCol, c))
    ensures Distinct(fields) ==> Distinct(r)
    ensures Filter(fields, NonEmpty) <= r
    ensures Truthy(sel.key) ==> sel.key.value in r
  {
    var extras := Extras(fields, sel);
    FilterAppend(fields, extras, NonEmpty);
    if Distinct(fields) then
      FilterDistinct(fields + extras, NonEmpty);
      Filter(fields + extras, NonEmpty)
    else
      Filter(fields + extras, NonEmpty)
  }

  /** When the key, date and account columns are different names the two
      constructions agree, so the repetition above is the only difference. */
  lemma AllFieldsAgreeOnDifferentExtras(fields: seq<string>, sel: Selection)
    requires Truthy(sel.key) && Truthy(sel.dateCol) ==> sel.key.value != sel.dateCol.value
    requires Truthy(sel.key) && Truthy(sel.accountCol) ==> sel.key.value != sel.accountCol.value
    requires Truthy(sel.dateCol) && Truthy(sel.accountCol) ==> sel.dateCol.value != sel.accountCol.value
    ensures AllFieldsAsWritten(fields, sel) == AllFields(fields, sel)
  {
    var e1 := Extra(sel.key, fields);
    assert Extra(sel.dateCol, fields + e1) == Extra(sel.dateCol, fields);
    var e2 := Extra(sel.dateCol, fields);
    assert Extra(sel.accountCol, fields + e1 + e2) == Extra(sel.accountCol, fields);
  }

  // --------------------------------------------------------------- reindex

  /** The fields a table lacks, each once, in the order of `fields`. */
  function MissingFields(header: seq<string>, fields: seq<string>): (r: seq<string>)
    ensures Distinct(r)
    ensures forall f :: f in r <==> f in fields && f !in header
  {
    Dedup(Filter(fields, f => f !in header))
  }

  /** The loop of lines 196-200: each lacking field is added as a last
      column holding the `pd.NA` marker. */
  function Pad(t: Table, fields: seq<string>): (r: Table)
    requires Wf(t)
    ensures r.header == t.header + MissingFields(t.header, fields)
    ensures |r.rows| == |t.rows| && Wf(r)
    ensures forall i, j :: 0 <= i < |t.rows| && 0 <= j < |r.header| ==>
              r.rows[i][j] == (if j < |t.header| then t.rows[i][j] else Na)
  {
    var extra := MissingFields(t.header, fields);
    var rows := seq(|t.rows|, i requires 0 <= i < |t.rows| => t.rows[i] + seq(|extra|, _ => Na));
    Table(t.header + extra, rows)
  }

  /** The cell of row `i` under the first column called `name`, the
      `pd.NA` marker when the table has no such column. */
  function Lookup(t: Table, i: nat, name: string): Cell
    requires Wf(t) && i < |t.rows|
  {
    match IndexOf(t.header, name)
    case None => Na
    case Some(j) => t.rows[i][j]
  }

  function Project(t: Table, fields: seq<string>): (r: Table)
    requires Wf(t)
    ensures r.header == fields && |r.rows| == |t.rows| && Wf(r)
    ensures forall i, k :: 0 <= i < |t.rows| && 0 <= k < |fields| ==> r.rows[i][k] == Lookup(t, i, fields[k])
  {
    Table(fields, seq(|t.rows|, i requires 0 <= i < |t.rows| =>
      seq(|fields|, k requires 0 <= k < |fields| => Lookup(t, i, fields[k]))))
  }

  /** `reindex(columns=fields)` after the padding loop. The result has
      exactly the columns `fields`, a present column keeps its cells and an
      absent one holds missing values. A header that repeats a name cannot be
      reindexed, unless the padded header already is `fields`. */
  function Reindex(t: Table, fields: seq<string>): (r: Result<Table, AlignError>)
    requires Wf(t)
    ensures r.Err? <==> !Distinct(t.header) && t.header + MissingFields(t.header, fields) != fields
    ensures r.Err? ==> r.error == DuplicateLabels
    ensures r.Ok? ==> r.value.header == fields && Wf(r.value) && |r.value.rows| == |t.rows|
    ensures Distinct(t.header) ==> r.Ok?
    ensures Distinct(t.header) && r.Ok? ==>
              forall i, k :: 0 <= i < |t.rows| && 0 <= k < |fields| ==> r.value.rows[i][k] == Lookup(t, i, fields[k])
  {
    var p := Pad(t, fields);
    PaddedDistinct(t, fields);
    if p.header == fields then
      assert Distinct(t.header) ==>
        forall i, k :: 0 <= i < |t.rows| && 0 <= k < |fields| ==> p.rows[i][k] == Lookup(t, i, fields[k]) by {
        if Distinct(t.header) {
          forall i, k | 0 <= i < |t.rows| && 0 <= k < |fields| ensures p.rows[i][k] == Lookup(t, i, fields[k]) {
            if k < |t.header| {
              IndexOfDistinct(t.header, k);
            } else {
              assert fields[k] in MissingFields(t.header, fields);
            }
          }
        }
      }
      Ok(p)
    else if !Distinct(p.header) then
      Err(DuplicateLabels)
    else
      assert forall i, k :: 0 <= i < |t.rows| && 0 <= k < |fields| ==> Lookup(p, i, fields[k]) == Lookup(t, i, fields[k]) by {
        forall i, k | 0 <= i < |t.rows| && 0 <= k < |fields| ensures Lookup(p, i, fields[k]) == Lookup(t, i, fields[k]) {
          PaddedLookup(t, fields, i, fields[k]);
        }
      }
      Ok(Project(p, fields))
  }

  /** Padding adds only new names, so the padded header repeats a name
      exactly when the original one does. */
  lemma PaddedDistinct(t: Table, fields: seq<string>)
    requires Wf(t)
    ensures Distinct(Pad(t, fields).header) <==> Distinct(t.header)
  {
    var p := Pad(t, fields);
    var extra := MissingFields(t.header, fields);
    if Distinct(t.header) {
      DistinctConcat(t.header, extra);
    } else {
      var a, b :| 0 <= a < b < |t.header| && t.header[a] == t.header[b];
      assert p.header[a] == p.header[b];
    }
  }

  /** A listed name reads the same cell before and after padding. */
  lemma PaddedLookup(t: Table, fields: seq<string>, i: nat, f: string)
    requires Wf(t) && i < |t.rows| && f in fields
    ensures Lookup(Pad(t, fields), i, f) == Lookup(t, i, f)
  {
    var extra := MissingFields(t.header, fields);
    if f in t.header {
      IndexOfPrefix(t.header, extra, f);
    } else {
      var j := AddedColumnPosition(t, fields, f);
    }
  }

  /** A listed name the table lacks is found among the added columns. */
  lemma AddedColumnPosition(t: Table, fields: seq<string>, f: string) returns (j: nat)
    requires Wf(t) && f in fields && f !in t.header
    ensures |t.header| <= j && IndexOf(Pad(t, fields).header, f) == Some(j)
  {
    var p := Pad(t, fields);
    var extra := MissingFields(t.header, fields);
    var x :| 0 <= x < |extra| && extra[x] == f;
    assert p.header[|t.header| + x] == f;
    assert p.header[..|t.header| + x] == t.header + extra[..x];
    IndexOfFirst(p.header, f, |t.header| + x);
    j := |t.header| + x;
  }

  /** With distinct names on both sides, reindexing keeps every listed column
      the table has, cell for cell, and gives every other listed column only
      markers. */
  lemma ReindexColumns(t: Table, fields: seq<string>, name: string)
    requires Wf(t) && Distinct(t.header) && Distinct(fields) && name in fields
    ensures Reindex(t, fields).Ok?
    ensures name in t.header ==> Column(Reindex(t, fields).value, name) == Column(t, name)
    ensures name !in t.header ==> forall c :: c in Column(Reindex(t, fields).value, name).value ==> c == Na
  {
    var r := Reindex(t, fields).value;
    var k := IndexOf(fields, name).value;
    IndexOfDistinct(fields, k);
    var col := ColumnAt(r, k);
    assert forall i :: 0 <= i < |t.rows| ==> col[i] == Lookup(t, i, name);
    if name in t.header {
      var j := IndexOf(t.header, name).value;
      assert col == ColumnAt(t, j);
    }
  }

  /** A Salesforce header that a rename left with a repeated name cannot be
      reindexed. */
  lemma ReindexRefusesRepeatedNames()
    ensures Reindex(Table(["a", "b", "a"], []), ["a"]) == Err(DuplicateLabels)
  {
    var t := Table(["a", "b", "a"], []);
    assert t.header[0] == t.header[2];
    assert t.header + MissingFields(t.header, ["a"]) != ["a"] by {
      assert |t.header + MissingFields(t.header, ["a"])| >= 3;
    }
  }

  // ----------------------------------------------------------------- align

  datatype Aligned = Aligned(ns: Table, sf: Table, fields: seq<string>, key: string)

  /** Lines 183-205 composed: both tables are reindexed to the field list
      (NetSuite first), and the comparison goes ahead only when the merge key
      is truthy and both reindexed tables have it. The field list is the
      corrected one, `AllFields`, which lists each name once; the list the
      code builds can repeat the key (`AllFieldsAsWrittenRepeats`). */
  function Align(s: Sources, sel: Selection): (r: Result<Aligned, AlignError>)
    requires Wf(s.ns) && Wf(s.sf)
    ensures r.Ok? ==> r.value.ns.header == r.value.fields && r.value.sf.header == r.value.fields
    ensures r.Ok? ==> Wf(r.value.ns) && Wf(r.value.sf)
    ensures r.Ok? ==> |r.value.ns.rows| == |s.ns.rows| && |r.value.sf.rows| == |s.sf.rows|
    ensures r.Ok? ==> Distinct(r.value.fields) && r.value.key in r.value.fields
    ensures r.Ok? ==> Truthy(sel.key) && r.value.key == sel.key.value
    ensures !Truthy(sel.key) ==> r.Err?
    ensures Truthy(sel.key) && Distinct(s.ns.header) && Distinct(s.sf.header) ==> r.Ok?
    ensures r.Err? ==> r.error == MissingKey || r.error == DuplicateLabels
  {
    var fields := AllFields(SelectedFields(sel), sel);
    match Reindex(s.ns, fields)
    case Err(e) => Err(e)
    case Ok(ns) =>
      match Reindex(s.sf, fields)
      case Err(e) => Err(e)
      case Ok(sf) =>
        if !Truthy(sel.key) || sel.key.value !in ns.header || sel.key.value !in sf.header then Err(MissingKey)
        else Ok(Aligned(ns, sf, fields, sel.key.value))
  }
}
