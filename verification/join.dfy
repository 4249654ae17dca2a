/** The key-based outer join of the aligned tables and its `_merge`
    indicator (Ht.py lines 208, 217-218, 857 and 884): every output row is
    a pair of rows with equal keys, or a row of one side whose key the other
    side lacks. The join compares keys by plain cell equality; how the
    library pairs missing keys and in which order it emits rows is not
    modelled. */
module Join {
  import opened Base
  import opened Cells
  import opened Tables

  /** A row of the merged table, tagged as `_merge` tags it. */
  datatype Joined = Both(left: Row, right: Row) | LeftOnly(left: Row) | RightOnly(right: Row)

  predicate IsBoth(x: Joined) { x.Both? }
  predicate IsLeftOnly(x: Joined) { x.LeftOnly? }
  predicate IsRightOnly(x: Joined) { x.RightOnly? }
  predicate IsOrphan(x: Joined) { x.LeftOnly? || x.RightOnly? }

  /** Both rows have a key cell at position `k`, and the keys are equal. */
  predicate Matches(a: Row, b: Row, k: nat) {
    k < |a| && k < |b| && a[k] == b[k]
  }

  /** Some row of `ys` has the key of `x`. */
  predicate HasPartner(x: Row, ys: seq<Row>, k: nat) {
    exists j :: 0 <= j < |ys| && Matches(x, ys[j], k)
  }

  /** The pairs of `l` with each right row of the same key, in order. */
  function Partners(l: Row, rs: seq<Row>, k: nat): (r: seq<Joined>)
    ensures forall x :: x in r ==> x.Both? && x.left == l && x.right in rs && Matches(l, x.right, k)
    ensures forall j :: 0 <= j < |rs| && Matches(l, rs[j], k) ==> Both(l, rs[j]) in r
    ensures |r| == 0 <==> !HasPartner(l, rs, k)
  {
    if |rs| == 0 then []
    else
      var rest := Partners(l, rs[1..], k);
      assert forall j :: 1 <= j < |rs| ==> rs[j] == rs[1..][j - 1];
      if Matches(l, rs[0], k) then [Both(l, rs[0])] + rest else rest
  }

  /** What one left row contributes: its pairs, or itself as `left_only`. */
  function Expand(l: Row, rs: seq<Row>, k: nat): seq<Joined> {
    var p := Partners(l, rs, k);
    if |p| == 0 then [LeftOnly(l)] else p
  }

  function LeftPart(ls: seq<Row>, rs: seq<Row>, k: nat): seq<Joined> {
    if |ls| == 0 then [] else Expand(ls[0], rs, k) + LeftPart(ls[1..], rs, k)
  }

  /** The right rows that no left row pairs with, as `right_only`. */
  function RightPart(ls: seq<Row>, rs: seq<Row>, k: nat): seq<Joined> {
    if |rs| == 0 then []
    else (if HasPartner(rs[0], ls, k) then [] else [RightOnly(rs[0])]) + RightPart(ls, rs[1..], k)
  }

  /** `pd.merge(ns, sf, on=key, how="outer", indicator=True)`. */
  function OuterJoin(ls: seq<Row>, rs: seq<Row>, k: nat): seq<Joined> {
    LeftPart(ls, rs, k) + RightPart(ls, rs, k)
  }

  lemma {:induction false} LeftPartMembers(ls: seq<Row>, rs: seq<Row>, k: nat)
    ensures forall x :: x in LeftPart(ls, rs, k) ==>
              (x.Both? && x.left in ls && x.right in rs && Matches(x.left, x.right, k)) ||
              (x.LeftOnly? && x.left in ls && !HasPartner(x.left, rs, k))
    ensures forall i, j :: 0 <= i < |ls| && 0 <= j < |rs| && Matches(ls[i], rs[j], k) ==>
              Both(ls[i], rs[j]) in LeftPart(ls, rs, k)
    ensures forall i :: 0 <= i < |ls| && !HasPartner(ls[i], rs, k) ==> LeftOnly(ls[i]) in LeftPart(ls, rs, k)
  {
    if |ls| > 0 {
      LeftPartMembers(ls[1..], rs, k);
      assert forall i :: 1 <= i < |ls| ==> ls[i] == ls[1..][i - 1];
    }
  }

  lemma {:induction false} RightPartMembers(ls: seq<Row>, rs: seq<Row>, k: nat)
    ensures forall x :: x in RightPart(ls, rs, k) ==> x.RightOnly? && x.right in rs && !HasPartner(x.right, ls, k)
    ensures forall j :: 0 <= j < |rs| && !HasPartner(rs[j], ls, k) ==> RightOnly(rs[j]) in RightPart(ls, rs, k)
  {
    if |rs| > 0 {
      RightPartMembers(ls, rs[1..], k);
      assert forall j :: 1 <= j < |rs| ==> rs[j] == rs[1..][j - 1];
    }
  }

  /** The classification of every merged row: a `both` row pairs a NetSuite
      row with a Salesforce row of the same key, a `left_only` row is a
      NetSuite row whose key no Salesforce row has, a `right_only` row is the
      converse, and every such pair or row does occur. */
  lemma JoinClassification(ls: seq<Row>, rs: seq<Row>, k: nat)
    ensures forall a, b :: Both(a, b) in OuterJoin(ls, rs, k) <==> a in ls && b in rs && Matches(a, b, k)
    ensures forall a :: LeftOnly(a) in OuterJoin(ls, rs, k) <==> a in ls && !HasPartner(a, rs, k)
    ensures forall b :: RightOnly(b) in OuterJoin(ls, rs, k) <==> b in rs && !HasPartner(b, ls, k)
  {
    LeftPartMembers(ls, rs, k);
    RightPartMembers(ls, rs, k);
    var out := OuterJoin(ls, rs, k);
    forall a, b | a in ls && b in rs && Matches(a, b, k) ensures Both(a, b) in out {
      var i :| 0 <= i < |ls| && ls[i] == a;
      var j :| 0 <= j < |rs| && rs[j] == b;
    }
    forall a | a in ls && !HasPartner(a, rs, k) ensures LeftOnly(a) in out {
      var i :| 0 <= i < |ls| && ls[i] == a;
    }
    forall b | b in rs && !HasPartner(b, ls, k) ensures RightOnly(b) in out {
      var j :| 0 <= j < |rs| && rs[j] == b;
    }
  }

  /** `total_match`: the rows tagged `both`. */
  function TotalMatch(out: seq<Joined>): nat {
    Count(out, IsBoth)
  }

  /** `total_mismatch`: the rows tagged `left_only` or `right_only`. */
  function TotalMismatch(out: seq<Joined>): nat {
    Count(out, IsOrphan)
  }

  /** Every merged row is counted by exactly one of the two totals. */
  lemma TotalsCoverJoin(out: seq<Joined>)
    ensures TotalMatch(out) + TotalMismatch(out) == |out|
  {
    CountComplement(out, IsBoth, IsOrphan);
  }

  /** `netsuite_orphans`: the `left_only` rows, in order. */
  function NetSuiteOrphans(out: seq<Joined>): (r: seq<Joined>)
    ensures forall x :: x in r <==> x in out && x.LeftOnly?
    ensures |r| == Count(out, IsLeftOnly)
  {
    Filter(out, IsLeftOnly)
  }

  /** `salesforce_orphans`: the `right_only` rows, in order. */
  function SalesforceOrphans(out: seq<Joined>): (r: seq<Joined>)
    ensures forall x :: x in r <==> x in out && x.RightOnly?
    ensures |r| == Count(out, IsRightOnly)
  {
    Filter(out, IsRightOnly)
  }

  /** One left row contributes exactly one `left_only` row when it has no
      partner, and none otherwise; it never contributes a `right_only` row. */
  lemma ExpandCounts(l: Row, rs: seq<Row>, k: nat)
    ensures Count(Expand(l, rs, k), IsLeftOnly) == (if HasPartner(l, rs, k) then 0 else 1)
    ensures Count(Expand(l, rs, k), IsRightOnly) == 0
  {
    var e := Expand(l, rs, k);
    if HasPartner(l, rs, k) {
      assert forall i :: 0 <= i < |e| ==> e[i] in e;
      CountNone(e, IsLeftOnly);
    } else {
      assert e[1..] == [];
    }
    CountNone(e, IsRightOnly);
  }

  lemma {:induction false} LeftPartCounts(ls: seq<Row>, rs: seq<Row>, k: nat)
    ensures Count(LeftPart(ls, rs, k), IsLeftOnly) == Count(ls, l => !HasPartner(l, rs, k))
    ensures Count(LeftPart(ls, rs, k), IsRightOnly) == 0
  {
    if |ls| > 0 {
      LeftPartCounts(ls[1..], rs, k);
      ExpandCounts(ls[0], rs, k);
      CountAppend(Expand(ls[0], rs, k), LeftPart(ls[1..], rs, k), IsLeftOnly);
      CountAppend(Expand(ls[0], rs, k), LeftPart(ls[1..], rs, k), IsRightOnly);
    }
  }

  lemma {:induction false} RightPartCounts(ls: seq<Row>, rs: seq<Row>, k: nat)
    ensures Count(RightPart(ls, rs, k), IsRightOnly) == Count(rs, r => !HasPartner(r, ls, k))
    ensures Count(RightPart(ls, rs, k), IsLeftOnly) == 0
  {
    if |rs| > 0 {
      RightPartCounts(ls, rs[1..], k);
      var head := if HasPartner(rs[0], ls, k) then [] else [RightOnly(rs[0])];
      CountAppend(head, RightPart(ls, rs[1..], k), IsRightOnly);
      CountAppend(head, RightPart(ls, rs[1..], k), IsLeftOnly);
      if !HasPartner(rs[0], ls, k) {
        assert head[1..] == [];
      }
    }
  }

  /** The NetSuite orphan list holds one row per NetSuite row without a
      Salesforce partner. */
  lemma NetSuiteOrphanCount(ls: seq<Row>, rs: seq<Row>, k: nat)
    ensures |NetSuiteOrphans(OuterJoin(ls, rs, k))| == Count(ls, l => !HasPartner(l, rs, k))
  {
    LeftPartCounts(ls, rs, k);
    RightPartCounts(ls, rs, k);
    CountAppend(LeftPart(ls, rs, k), RightPart(ls, rs, k), IsLeftOnly);
  }

  /** The Salesforce orphan list holds one row per Salesforce row without a
      NetSuite partner. */
  lemma SalesforceOrphanCount(ls: seq<Row>, rs: seq<Row>, k: nat)
    ensures |SalesforceOrphans(OuterJoin(ls, rs, k))| == Count(rs, r => !HasPartner(r, ls, k))
  {
    LeftPartCounts(ls, rs, k);
    RightPartCounts(ls, rs, k);
    CountAppend(LeftPart(ls, rs, k), RightPart(ls, rs, k), IsRightOnly);
  }

  /** `total_mismatch` is the size of the two orphan lists together. */
  lemma MismatchIsOrphans(out: seq<Joined>)
    ensures TotalMismatch(out) == |NetSuiteOrphans(out)| + |SalesforceOrphans(out)|
  {
    CountDisjoint(out, IsLeftOnly, IsRightOnly, IsOrphan);
  }

  /** Row conservation on the NetSuite side: each NetSuite row is either
      paired or a `left_only` orphan. */
  lemma NetSuiteRowsConserved(ls: seq<Row>, rs: seq<Row>, k: nat)
    ensures |NetSuiteOrphans(OuterJoin(ls, rs, k))| + Count(ls, l => HasPartner(l, rs, k)) == |ls|
  {
    NetSuiteOrphanCount(ls, rs, k);
    CountComplement(ls, l => HasPartner(l, rs, k), l => !HasPartner(l, rs, k));
  }

  /** Row conservation on the Salesforce side. */
  lemma SalesforceRowsConserved(ls: seq<Row>, rs: seq<Row>, k: nat)
    ensures |SalesforceOrphans(OuterJoin(ls, rs, k))| + Count(rs, r => HasPartner(r, ls, k)) == |rs|
  {
    SalesforceOrphanCount(ls, rs, k);
    CountComplement(rs, r => HasPartner(r, ls, k), r => !HasPartner(r, ls, k));
  }

  /** Two tables with no key in common join into orphans only. */
  lemma DisjointKeysExample()
    ensures OuterJoin([[Num(1)]], [[Num(2)]], 0) == [LeftOnly([Num(1)]), RightOnly([Num(2)])]
    ensures TotalMatch(OuterJoin([[Num(1)]], [[Num(2)]], 0)) == 0
    ensures TotalMismatch(OuterJoin([[Num(1)]], [[Num(2)]], 0)) == 2
  {
    assert !HasPartner([Num(1)], [[Num(2)]], 0);
    assert !HasPartner([Num(2)], [[Num(1)]], 0);
    assert Partners([Num(1)], [[Num(2)]], 0) == [];
  }
}
