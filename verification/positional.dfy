/** The positional per-field comparison of the drill-down, summary and
    trend views (Ht.py lines 376-388, 494-508, 592-606 and 633-638) and the
    membership count of the per-field charts (lines 451-452). Both columns
    are cast to text, each according to its own column type, and compared
    row by row, the i-th NetSuite value against the i-th Salesforce value,
    over the rows both columns have. */
module Positional {
  import opened Base
  import opened Cells
  import opened Tables

  /** Row `i` exists on both sides and the two values read the same after
      each column is cast to text. */
  predicate TextEqualAt(ns: seq<Cell>, sf: seq<Cell>, i: nat) {
    i < |ns| && i < |sf| && ColumnText(ns, i) == ColumnText(sf, i)
  }

  /** Row `i` exists on both sides and holds the same value. */
  predicate ValueEqualAt(ns: seq<Cell>, sf: seq<Cell>, i: nat) {
    i < |ns| && i < |sf| && ns[i] == sf[i]
  }

  /** `(ns_vals[:min_len] == sf_vals[:min_len]).sum()`, and 0 when either
      column is empty: the number of rows below the shorter length whose two
      texts are equal. */
  function PositionalMatches(ns: seq<Cell>, sf: seq<Cell>): (m: nat)
    ensures m <= Min(|ns|, |sf|) <= |ns|
  {
    CountBelow(Min(|ns|, |sf|), (i: nat) => TextEqualAt(ns, sf, i))
  }

  /** The positional matches are exactly the rows below the shorter length
      whose two texts are equal. */
  lemma PositionalMatchesAreEqualTexts(ns: seq<Cell>, sf: seq<Cell>)
    ensures PositionalMatches(ns, sf) == |set i: nat | i < Min(|ns|, |sf|) && ColumnText(ns, i) == ColumnText(sf, i)|
  {
    var n := Min(|ns|, |sf|);
    var p := (i: nat) => TextEqualAt(ns, sf, i);
    assert PositionalMatches(ns, sf) == CountBelow(n, p);
    CountBelowCard(n, p);
    assert (set i: nat | i < n && p(i)) ==
           (set i: nat | i < n && ColumnText(ns, i) == ColumnText(sf, i));
  }

  datatype Comparison = Comparison(matches: nat, mismatches: nat, matchPct: real, mismatchPct: real)

  /** One field of the drill-down: against a Salesforce column, the
      positional matches and the rest of the NetSuite rows as mismatches,
      with zero-guarded rates; without one, no match and a 100% mismatch
      rate. */
  function ComparePositional(ns: seq<Cell>, sf: Option<seq<Cell>>): (c: Comparison)
    ensures c.matches + c.mismatches == |ns|
    ensures c.matches <= |ns|
    ensures sf.None? ==> c == Comparison(0, |ns|, 0.0, 100.0)
    ensures sf.Some? ==> c.matches == PositionalMatches(ns, sf.value) && c.matches <= |sf.value|
    ensures sf.Some? && |ns| == 0 ==> c.matchPct == 0.0 && c.mismatchPct == 0.0
    ensures sf.Some? && |ns| > 0 ==> c.matchPct + c.mismatchPct == 100.0
    ensures sf.Some? ==> c.matchPct == Percent(c.matches, |ns|) && c.mismatchPct == Percent(c.mismatches, |ns|)
    ensures 0.0 <= c.matchPct <= 100.0 && 0.0 <= c.mismatchPct <= 100.0
  {
    match sf
    case None => Comparison(0, |ns|, 0.0, 100.0)
    case Some(s) =>
      var m := PositionalMatches(ns, s);
      var total := |ns|;
      PercentsOfWhole(m, total);
      Comparison(m, total - m, Percent(m, total), Percent(total - m, total))
  }

  /** Identical columns match on every row. */
  lemma {:induction false} SelfComparisonMatchesAll(ns: seq<Cell>)
    ensures PositionalMatches(ns, ns) == |ns|
  {
    AllBelow(|ns|, (i: nat) => TextEqualAt(ns, ns, i));
  }

  lemma {:induction false} AllBelow(n: nat, p: nat -> bool)
    requires forall i :: 0 <= i < n ==> p(i)
    ensures CountBelow(n, p) == n
  {
    if n > 0 {
      AllBelow(n - 1, p);
    }
  }

  /** Between two columns of the same type the cast can only add matches:
      every row holding the same value on both sides is a positional match. */
  lemma ValueEqualityIsTextEquality(ns: seq<Cell>, sf: seq<Cell>)
    requires ColumnType(ns) == ColumnType(sf)
    ensures CountBelow(Min(|ns|, |sf|), (i: nat) => ValueEqualAt(ns, sf, i)) <= PositionalMatches(ns, sf)
  {
    forall i: nat | ValueEqualAt(ns, sf, i) ensures TextEqualAt(ns, sf, i) {
      TextRespectsValues(ns[i], sf[i], ColumnType(ns));
    }
    CountBelowMonotone(Min(|ns|, |sf|), (i: nat) => ValueEqualAt(ns, sf, i), (i: nat) => TextEqualAt(ns, sf, i));
  }

  /** Between columns of different types equal values can fail to match: a
      blank turns the NetSuite integers into floats, so 10 reads "10.0" on
      one side and "10" on the other. */
  lemma FloatColumnMissesEqualValues()
    ensures PositionalMatches([Num(10), Null], [Num(10), Num(20)]) == 0
    ensures CountBelow(2, (i: nat) => ValueEqualAt([Num(10), Null], [Num(10), Num(20)], i)) == 1
  {
    var ns, sf := [Num(10), Null], [Num(10), Num(20)];
    assert ColumnType(ns) == Float64 && ColumnType(sf) == Int64;
    TypeChangesText();
    assert !TextEqualAt(ns, sf, 0);
    assert !TextEqualAt(ns, sf, 1);
  }

  /** A column the alignment added holds only the marker, which reads
      "<NA>"; against a column without that marker or that string it matches
      on no row, even where the other side is blank too. */
  lemma AddedColumnMatchesNothing(ns: seq<Cell>, sf: seq<Cell>)
    requires forall i :: 0 <= i < |sf| ==> sf[i] == Na
    requires forall i :: 0 <= i < |ns| ==> ns[i] != Na && ns[i] != Str(NaText)
    ensures PositionalMatches(ns, sf) == 0
  {
    forall i: nat | i < Min(|ns|, |sf|) ensures !TextEqualAt(ns, sf, i) {
      if ColumnText(ns, i) == NaText {
        OnlyMarkerRendersAsMarker(ns[i], ColumnType(ns));
      }
    }
    CountBelowMonotone(Min(|ns|, |sf|), (i: nat) => TextEqualAt(ns, sf, i), (i: nat) => false);
    NoneBelow(Min(|ns|, |sf|));
  }

  lemma {:induction false} NoneBelow(n: nat)
    ensures CountBelow(n, (i: nat) => false) == 0
  {
    if n > 0 {
      NoneBelow(n - 1);
    }
  }

  /** After the cast a number of an integer column and the string of its
      digits match, so the comparison counts a match where the values
      differ. */
  lemma CastMatchesDifferentValues()
    ensures PositionalMatches([Num(10)], [Str("10")]) == 1
    ensures CountBelow(1, (i: nat) => ValueEqualAt([Num(10)], [Str("10")], i)) == 0
  {
    var ns, sf := [Num(10)], [Str("10")];
    assert ColumnType(ns) == Int64 && ColumnType(sf) == Object;
    NumberMatchesItsDigits();
    assert TextEqualAt(ns, sf, 0);
  }

  /** The NetSuite value of row `i` occurs anywhere in the Salesforce column
      (`isin`). */
  predicate MemberAt(ns: seq<Cell>, sf: seq<Cell>, i: nat) {
    i < |ns| && ns[i] in sf
  }

  /** The membership count of the per-field charts (`isin`, which compares
      values, not texts): the NetSuite rows whose value occurs anywhere in
      the Salesforce column, and 0 without one; the mismatches are the rest
      of the NetSuite rows. */
  function MembershipMatches(ns: seq<Cell>, sf: Option<seq<Cell>>): (m: nat)
    ensures m <= |ns|
    ensures sf.None? ==> m == 0
  {
    match sf
    case None => 0
    case Some(s) => CountBelow(|ns|, (i: nat) => MemberAt(ns, s, i))
  }

  /** The membership matches are exactly the NetSuite rows whose value
      occurs in the Salesforce column. */
  lemma MembershipCountsMembers(ns: seq<Cell>, sf: seq<Cell>)
    ensures MembershipMatches(ns, Some(sf)) == |set i: nat | i < |ns| && ns[i] in sf|
  {
    var p := (i: nat) => MemberAt(ns, sf, i);
    assert MembershipMatches(ns, Some(sf)) == CountBelow(|ns|, p);
    CountBelowCard(|ns|, p);
    assert (set i: nat | i < |ns| && p(i)) == (set i: nat | i < |ns| && ns[i] in sf);
  }

  function MembershipMismatches(ns: seq<Cell>, sf: Option<seq<Cell>>): (n: nat)
    ensures MembershipMatches(ns, sf) + n == |ns|
  {
    |ns| - MembershipMatches(ns, sf)
  }

  /** A NetSuite row whose value the Salesforce column lacks is not counted,
      so the count stays below the NetSuite row count. */
  lemma MembershipSkipsAbsentValue(ns: seq<Cell>, sf: seq<Cell>, i: nat)
    requires i < |ns| && ns[i] !in sf
    ensures MembershipMatches(ns, Some(sf)) < |ns|
    ensures MembershipMismatches(ns, Some(sf)) >= 1
  {
    CountBelowMiss(|ns|, (j: nat) => MemberAt(ns, sf, j), i);
  }

  /** A row holding the same value on both sides is also a member, so the
      membership count is never below the count of identical positions. */
  lemma MembershipCoversIdenticalPositions(ns: seq<Cell>, sf: seq<Cell>)
    ensures CountBelow(Min(|ns|, |sf|), (i: nat) => ValueEqualAt(ns, sf, i)) <= MembershipMatches(ns, Some(sf))
  {
    var n := Min(|ns|, |sf|);
    CountBelowMonotone(n, (i: nat) => ValueEqualAt(ns, sf, i), (i: nat) => MemberAt(ns, sf, i));
    CountBelowPrefix(n, |ns|, (i: nat) => MemberAt(ns, sf, i));
  }

  lemma {:induction false} CountBelowPrefix(n: nat, m: nat, p: nat -> bool)
    requires n <= m
    ensures CountBelow(n, p) <= CountBelow(m, p)
    decreases m - n
  {
    if n < m {
      CountBelowPrefix(n, m - 1, p);
    }
  }

  /** Membership ignores position: a reordered Salesforce column with the
      same values gives the same membership count, while the positional
      count can drop to nothing. */
  lemma MembershipIgnoresOrder()
    ensures MembershipMatches([Num(1), Num(2)], Some([Num(2), Num(1)])) == 2
    ensures PositionalMatches([Num(1), Num(2)], [Num(2), Num(1)]) == 0
  {
    var ns, sf := [Num(1), Num(2)], [Num(2), Num(1)];
    assert MemberAt(ns, sf, 0) && MemberAt(ns, sf, 1);
    assert ColumnType(ns) == Int64 && ColumnType(sf) == Int64;
    TextRespectsValues(Num(1), Num(2), Int64);
    TextRespectsValues(Num(2), Num(1), Int64);
    assert !TextEqualAt(ns, sf, 0) && !TextEqualAt(ns, sf, 1);
  }

  /** The running totals of the drill-down: per listed field present in
      NetSuite, its matches and mismatches are added; absent fields add
      nothing. */
  datatype Totals = Totals(matches: nat, mismatches: nat)

  function DrillDownTotals(ns: Table, sf: Table, fields: seq<string>): (t: Totals)
    requires Wf(ns) && Wf(sf)
    ensures t.matches + t.mismatches == Count(fields, f => f in ns.header) * |ns.rows|
  {
    if |fields| == 0 then Totals(0, 0)
    else
      var rest := DrillDownTotals(ns, sf, fields[1..]);
      match Column(ns, fields[0])
      case None => rest
      case Some(c) =>
        var r := ComparePositional(c, Column(sf, fields[0]));
        var n := Count(fields[1..], f => f in ns.header);
        assert (n + 1) * |ns.rows| == n * |ns.rows| + |ns.rows|;
        Totals(rest.matches + r.matches, rest.mismatches + r.mismatches)
  }

  /** One listed field contributes its own positional comparison when
      NetSuite has it, and nothing otherwise. */
  lemma DrillDownSingle(ns: Table, sf: Table, f: string)
    requires Wf(ns) && Wf(sf)
    ensures f !in ns.header ==> DrillDownTotals(ns, sf, [f]) == Totals(0, 0)
    ensures f in ns.header ==>
              var c := ComparePositional(Column(ns, f).value, Column(sf, f));
              DrillDownTotals(ns, sf, [f]) == Totals(c.matches, c.mismatches)
  {
    assert [f][1..] == [];
  }

  /** `total_matches_all` and `total_mismatches_all` add up field by field:
      the totals of two runs of fields are the sums of their totals. */
  lemma {:induction false} DrillDownAppend(ns: Table, sf: Table, a: seq<string>, b: seq<string>)
    requires Wf(ns) && Wf(sf)
    ensures DrillDownTotals(ns, sf, a + b).matches == DrillDownTotals(ns, sf, a).matches + DrillDownTotals(ns, sf, b).matches
    ensures DrillDownTotals(ns, sf, a + b).mismatches == DrillDownTotals(ns, sf, a).mismatches + DrillDownTotals(ns, sf, b).mismatches
  {
    if |a| == 0 {
      assert a + b == b;
    } else {
      assert (a + b)[0] == a[0];
      assert (a + b)[1..] == a[1..] + b;
      DrillDownAppend(ns, sf, a[1..], b);
    }
  }

  /** Without any listed field in the Salesforce table nothing matches, and
      every NetSuite row of every listed NetSuite field is a mismatch. */
  lemma {:induction false} DrillDownWithoutSalesforce(ns: Table, sf: Table, fields: seq<string>)
    requires Wf(ns) && Wf(sf)
    requires forall i :: 0 <= i < |fields| ==> fields[i] !in sf.header
    ensures DrillDownTotals(ns, sf, fields).matches == 0
    ensures DrillDownTotals(ns, sf, fields).mismatches == Count(fields, f => f in ns.header) * |ns.rows|
  {
    if |fields| > 0 {
      DrillDownWithoutSalesforce(ns, sf, fields[1..]);
    }
  }
}
