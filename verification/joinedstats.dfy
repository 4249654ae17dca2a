/** The per-field match statistics of the overview (Ht.py lines 242-271),
    computed on the rows of the outer join. On a `both` row a field matches
    when the two sides hold equal values or are both missing; every
    `left_only` and `right_only` row is a mismatch for every field. */
module JoinedStats {
  import opened Base
  import opened Cells
  import opened Tables
  import opened Join

  /** Line 257: two values agree when they are equal, or when both are
      missing; equality alone is false as soon as one side is missing. */
  predicate CellsAgree(a: Cell, b: Cell) {
    (!IsMissing(a) && !IsMissing(b) && a == b) || (IsMissing(a) && IsMissing(b))
  }

  /** A `both` row whose two sides agree on column `j`. */
  predicate AgreesAt(x: Joined, j: nat) {
    x.Both? && j < |x.left| && j < |x.right| && CellsAgree(x.left[j], x.right[j])
  }

  /** A `both` row whose two sides differ on column `j`. */
  predicate DiffersAt(x: Joined, j: nat) {
    x.Both? && !AgreesAt(x, j)
  }

  datatype FieldStat = FieldStat(field: string, matches: nat, mismatches: nat)

  /** The statistics of one field. A field the merged table lacks counts
      nothing; otherwise the agreeing `both` rows are matches and the other
      `both` rows plus all orphans are mismatches. */
  function FieldOnJoined(fields: seq<string>, out: seq<Joined>, name: string): (s: FieldStat)
    ensures s.field == name
    ensures name !in fields ==> s.matches == 0 && s.mismatches == 0
    ensures name in fields ==> s.matches + s.mismatches == |out|
    ensures s.matches <= TotalMatch(out)
    ensures name in fields ==> s.mismatches >= TotalMismatch(out)
  {
    match IndexOf(fields, name)
    case None => FieldStat(name, 0, 0)
    case Some(j) =>
      var agree := Count(out, x => AgreesAt(x, j));
      var differ := Count(out, x => DiffersAt(x, j));
      FieldCountsSplit(out, j);
      FieldStat(name, agree, differ + TotalMismatch(out))
  }

  /** The matches of a listed field are exactly the `both` rows whose two
      cells agree, and its mismatches the other `both` rows plus every
      orphan. */
  lemma FieldMatchesAreAgreeingPairs(fields: seq<string>, out: seq<Joined>, name: string)
    requires name in fields
    ensures FieldOnJoined(fields, out, name).matches ==
            |set i: nat | i < |out| && AgreesAt(out[i], IndexOf(fields, name).value)|
    ensures FieldOnJoined(fields, out, name).mismatches ==
            |set i: nat | i < |out| && DiffersAt(out[i], IndexOf(fields, name).value)| +
            |set i: nat | i < |out| && IsOrphan(out[i])|
  {
    var j := IndexOf(fields, name).value;
    var agree := (x: Joined) => AgreesAt(x, j);
    var differ := (x: Joined) => DiffersAt(x, j);
    assert FieldOnJoined(fields, out, name).matches == Count(out, agree);
    assert FieldOnJoined(fields, out, name).mismatches == Count(out, differ) + Count(out, IsOrphan);
    CountIsCard(out, agree, set i: nat | i < |out| && AgreesAt(out[i], j));
    CountIsCard(out, differ, set i: nat | i < |out| && DiffersAt(out[i], j));
    CountIsCard(out, IsOrphan, set i: nat | i < |out| && IsOrphan(out[i]));
  }

  /** Two blanks count as a match, and a blank against a value as a
      mismatch. In a NetSuite text column paired with a column the alignment
      added, the blank matches the marker and the text does not. */
  lemma MissingValuesMatchEachOther()
    ensures FieldOnJoined(["id", "v"], [Both([Num(1), Null], [Num(1), Null])], "v") == FieldStat("v", 1, 0)
    ensures FieldOnJoined(["id", "v"], [Both([Num(1), Null], [Num(1), Num(5)])], "v") == FieldStat("v", 0, 1)
    ensures FieldOnJoined(["id", "v"], [Both([Num(1), Str("a")], [Num(1), Na]), Both([Num(2), Null], [Num(2), Na])], "v")
            == FieldStat("v", 1, 1)
  {
    var fields := ["id", "v"];
    SingleMatchedRow(fields, [Num(1), Null], [Num(1), Null], 1);
    SingleMatchedRow(fields, [Num(1), Null], [Num(1), Num(5)], 1);
    var l1, r1, l2, r2 := [Num(1), Str("a")], [Num(1), Na], [Num(2), Null], [Num(2), Na];
    assert [Both(l1, r1), Both(l2, r2)] == [Both(l1, r1)] + [Both(l2, r2)];
    PairThenRows(fields, l1, r1, [Both(l2, r2)], 1);
    SingleMatchedRow(fields, l2, r2, 1);
  }

  /** A `both` row in front of other merged rows adds its own verdict to
      theirs. */
  lemma PairThenRows(fields: seq<string>, l: Row, r: Row, rest: seq<Joined>, j: nat)
    requires Distinct(fields) && j < |fields| && j < |l| && j < |r|
    ensures FieldOnJoined(fields, [Both(l, r)] + rest, fields[j]).matches ==
            (if CellsAgree(l[j], r[j]) then 1 else 0) + FieldOnJoined(fields, rest, fields[j]).matches
    ensures FieldOnJoined(fields, [Both(l, r)] + rest, fields[j]).mismatches ==
            (if CellsAgree(l[j], r[j]) then 0 else 1) + FieldOnJoined(fields, rest, fields[j]).mismatches
  {
    IndexOfDistinct(fields, j);
    var out := [Both(l, r)] + rest;
    assert out[0] == Both(l, r) && out[1..] == rest;
  }

  /** A merged table of one `both` row gives a field one match when the two
      cells agree and one mismatch otherwise. */
  lemma SingleMatchedRow(fields: seq<string>, l: Row, r: Row, j: nat)
    requires Distinct(fields) && j < |fields| && j < |l| && j < |r|
    ensures FieldOnJoined(fields, [Both(l, r)], fields[j]) ==
            if CellsAgree(l[j], r[j]) then FieldStat(fields[j], 1, 0) else FieldStat(fields[j], 0, 1)
  {
    IndexOfDistinct(fields, j);
    var out := [Both(l, r)];
    assert out[1..] == [];
    assert Count(out, IsOrphan) == 0;
    assert Count(out, x => AgreesAt(x, j)) == if CellsAgree(l[j], r[j]) then 1 else 0;
    assert Count(out, x => DiffersAt(x, j)) == if CellsAgree(l[j], r[j]) then 0 else 1;
  }

  /** On the `both` rows agreement and disagreement split the rows, and the
      orphans make up the rest. */
  lemma FieldCountsSplit(out: seq<Joined>, j: nat)
    ensures Count(out, x => AgreesAt(x, j)) + Count(out, x => DiffersAt(x, j)) == TotalMatch(out)
    ensures TotalMatch(out) + TotalMismatch(out) == |out|
  {
    CountDisjoint(out, x => AgreesAt(x, j), x => DiffersAt(x, j), IsBoth);
    TotalsCoverJoin(out);
  }

  /** The key is a single column of the merged table, so on the key field
      every `both` row is a match and the field's matches are `total_match`. */
  lemma KeyFieldAlwaysMatches(ls: seq<Row>, rs: seq<Row>, fields: seq<string>, k: nat)
    requires Distinct(fields) && k < |fields|
    ensures FieldOnJoined(fields, OuterJoin(ls, rs, k), fields[k]).matches == TotalMatch(OuterJoin(ls, rs, k))
    ensures FieldOnJoined(fields, OuterJoin(ls, rs, k), fields[k]).mismatches == TotalMismatch(OuterJoin(ls, rs, k))
  {
    var out := OuterJoin(ls, rs, k);
    IndexOfDistinct(fields, k);
    JoinClassification(ls, rs, k);
    assert forall i :: 0 <= i < |out| ==> (AgreesAt(out[i], k) <==> IsBoth(out[i])) by {
      forall i | 0 <= i < |out| ensures AgreesAt(out[i], k) <==> IsBoth(out[i]) {
        if out[i].Both? {
          assert Both(out[i].left, out[i].right) in out;
        }
      }
    }
    CountCongruent(out, x => AgreesAt(x, k), IsBoth);
    FieldCountsSplit(out, k);
  }

  /** `all_excel_fields`: the original NetSuite header followed by the
      original Salesforce header, each name once, first occurrence first. */
  function ExcelFields(nsHeader: seq<string>, sfHeader: seq<string>): (r: seq<string>)
    ensures Distinct(r)
    ensures forall c :: c in r <==> c in nsHeader || c in sfHeader
    ensures Distinct(nsHeader) ==> nsHeader <= r
  {
    var r := Dedup(nsHeader + sfHeader);
    assert Distinct(nsHeader) ==> nsHeader <= r by {
      if Distinct(nsHeader) {
        DedupKeepsDistinctPrefix(nsHeader, sfHeader);
      }
    }
    r
  }

  lemma {:induction false} DedupKeepsDistinctPrefix(a: seq<string>, b: seq<string>)
    requires Distinct(a)
    ensures a <= Dedup(a + b)
    decreases |b|
  {
    if |b| == 0 {
      assert a + b == a;
      DedupOfDistinct(a);
    } else {
      var b' := b[..|b| - 1];
      DedupKeepsDistinctPrefix(a, b');
      assert (a + b)[..|a + b| - 1] == a + b';
    }
  }

  /** Sum of the per-field matches over the listed fields. */
  function MatchTotal(excel: seq<string>, fields: seq<string>, out: seq<Joined>): nat {
    if |excel| == 0 then 0
    else FieldOnJoined(fields, out, excel[0]).matches + MatchTotal(excel[1..], fields, out)
  }

  /** Sum of the per-field mismatches over the listed fields. */
  function MismatchTotal(excel: seq<string>, fields: seq<string>, out: seq<Joined>): nat {
    if |excel| == 0 then 0
    else FieldOnJoined(fields, out, excel[0]).mismatches + MismatchTotal(excel[1..], fields, out)
  }

  predicate Compared(fields: seq<string>, name: string) {
    name in fields
  }

  /** Each listed field the merged table has contributes one verdict per
      merged row, and every other field contributes none. */
  lemma {:induction false} TotalsCountVerdicts(excel: seq<string>, fields: seq<string>, out: seq<Joined>)
    ensures MatchTotal(excel, fields, out) + MismatchTotal(excel, fields, out) ==
            Count(excel, name => Compared(fields, name)) * |out|
  {
    if |excel| > 0 {
      TotalsCountVerdicts(excel[1..], fields, out);
      var c := Count(excel[1..], name => Compared(fields, name));
      if excel[0] in fields {
        assert (c + 1) * |out| == c * |out| + |out|;
      }
    }
  }

  /** Every listed field the merged table has matches on at most the `both`
      rows and mismatches on at least every orphan, so the overall totals
      are bounded by the join totals times the number of compared fields. */
  lemma {:induction false} OrphansWeighOnEveryField(excel: seq<string>, fields: seq<string>, out: seq<Joined>)
    ensures MatchTotal(excel, fields, out) <= Count(excel, name => Compared(fields, name)) * TotalMatch(out)
    ensures MismatchTotal(excel, fields, out) >= Count(excel, name => Compared(fields, name)) * TotalMismatch(out)
  {
    if |excel| > 0 {
      OrphansWeighOnEveryField(excel[1..], fields, out);
      var c := Count(excel[1..], name => Compared(fields, name));
      var head := FieldOnJoined(fields, out, excel[0]);
      if excel[0] in fields {
        assert Count(excel, name => Compared(fields, name)) == c + 1;
        MulSucc(c, TotalMatch(out));
        MulSucc(c, TotalMismatch(out));
      } else {
        assert head.matches == 0 && head.mismatches == 0;
      }
    }
  }

  lemma MulSucc(c: nat, x: nat)
    ensures (c + 1) * x == c * x + x
  {
  }

  datatype Overview = Overview(totalMatch: nat, totalMismatch: nat, matchPct: real, mismatchPct: real)

  /** The overall distribution: summed matches and mismatches over the
      listed fields and their shares, both 0 when there is nothing to count
      and adding up to 100 otherwise. */
  function OverallDistribution(excel: seq<string>, fields: seq<string>, out: seq<Joined>): (o: Overview)
    ensures o.totalMatch == MatchTotal(excel, fields, out) && o.totalMismatch == MismatchTotal(excel, fields, out)
    ensures o.totalMatch + o.totalMismatch == Count(excel, name => Compared(fields, name)) * |out|
    ensures o.totalMatch + o.totalMismatch == 0 ==> o.matchPct == 0.0 && o.mismatchPct == 0.0
    ensures o.matchPct == Percent(o.totalMatch, o.totalMatch + o.totalMismatch)
    ensures o.mismatchPct == Percent(o.totalMismatch, o.totalMatch + o.totalMismatch)
    ensures o.totalMatch + o.totalMismatch > 0 ==> o.matchPct + o.mismatchPct == 100.0
    ensures 0.0 <= o.matchPct <= 100.0 && 0.0 <= o.mismatchPct <= 100.0
  {
    var m := MatchTotal(excel, fields, out);
    var n := MismatchTotal(excel, fields, out);
    TotalsCountVerdicts(excel, fields, out);
    SharesOfTotal(m, n);
    Overview(m, n, Percent(m, m + n), Percent(n, m + n))
  }

  /** The two shares of a split total: each is its part of the total in
      percent, they add up to 100, and both are 0 for an empty total. */
  lemma SharesOfTotal(m: nat, n: nat)
    ensures m + n == 0 ==> Percent(m, m + n) == 0.0 && Percent(n, m + n) == 0.0
    ensures m + n > 0 ==> Percent(m, m + n) + Percent(n, m + n) == 100.0
    ensures m + n > 0 ==> Percent(m, m + n) * ((m + n) as real) == (m as real) * 100.0
    ensures m + n > 0 ==> Percent(n, m + n) * ((m + n) as real) == (n as real) * 100.0
    ensures 0.0 <= Percent(m, m + n) <= 100.0 && 0.0 <= Percent(n, m + n) <= 100.0
  {
    if m + n > 0 {
      PercentsComplement(m, n);
    }
  }

  /** One matched record and one orphan on each side, joined on the first
      column. */
  lemma OneMatchOneOrphanEach()
    ensures OuterJoin([[Num(1), Num(10)], [Num(2), Num(20)]], [[Num(1), Num(10)], [Num(3), Num(30)]], 0)
            == [Both([Num(1), Num(10)], [Num(1), Num(10)]), LeftOnly([Num(2), Num(20)]), RightOnly([Num(3), Num(30)])]
  {
    var l1, l2 := [Num(1), Num(10)], [Num(2), Num(20)];
    var r1, r2 := [Num(1), Num(10)], [Num(3), Num(30)];
    var ls, rs := [l1, l2], [r1, r2];
    assert Matches(l1, rs[0], 0);
    assert !HasPartner(l2, rs, 0);
    assert HasPartner(r1, ls, 0) by {
      assert Matches(r1, ls[0], 0);
    }
    assert !HasPartner(r2, ls, 0);
    assert Partners(l1, rs, 0) == [Both(l1, r1)] by {
      assert rs[1..] == [r2];
      assert Partners(l1, [r2], 0) == [];
    }
    assert Partners(l2, rs, 0) == [];
    assert LeftPart(ls, rs, 0) == [Both(l1, r1), LeftOnly(l2)] by {
      assert ls[1..] == [l2];
      assert LeftPart([l2], rs, 0) == [LeftOnly(l2)];
    }
    assert RightPart(ls, rs, 0) == [RightOnly(r2)] by {
      assert rs[1..] == [r2];
      assert [r2][1..] == [];
      assert RightPart(ls, [r2], 0) == [RightOnly(r2)] + RightPart(ls, [], 0);
    }
  }

  /** A `both` row followed by orphans gives a field its single verdict on
      the pair, and one mismatch per orphan. */
  lemma PairThenOrphans(fields: seq<string>, l: Row, r: Row, orphans: seq<Joined>, j: nat)
    requires Distinct(fields) && j < |fields| && j < |l| && j < |r|
    requires forall i :: 0 <= i < |orphans| ==> IsOrphan(orphans[i])
    ensures FieldOnJoined(fields, [Both(l, r)] + orphans, fields[j]) ==
            if CellsAgree(l[j], r[j]) then FieldStat(fields[j], 1, |orphans|)
            else FieldStat(fields[j], 0, 1 + |orphans|)
  {
    IndexOfDistinct(fields, j);
    var pair := [Both(l, r)];
    var agree := (x: Joined) => AgreesAt(x, j);
    var differ := (x: Joined) => DiffersAt(x, j);
    CountAppend(pair, orphans, agree);
    CountAppend(pair, orphans, differ);
    CountAppend(pair, orphans, IsOrphan);
    CountNone(orphans, agree);
    CountNone(orphans, differ);
    CountAll(orphans, IsOrphan);
    assert pair[1..] == [];
    assert FieldOnJoined(fields, pair + orphans, fields[j]) ==
           FieldStat(fields[j], Count(pair + orphans, agree), Count(pair + orphans, differ) + Count(pair + orphans, IsOrphan));
  }

  /** On the rows of that join, compared on the key and one more field, the
      matched record matches on both fields, but each orphan is a mismatch
      on both fields as well, so two of the six verdicts are matches. */
  lemma OrphansCountAgainstEveryField(out: seq<Joined>)
    requires out == [Both([Num(1), Num(10)], [Num(1), Num(10)]), LeftOnly([Num(2), Num(20)]), RightOnly([Num(3), Num(30)])]
    ensures FieldOnJoined(["id", "amt"], out, "id") == FieldStat("id", 1, 2)
    ensures FieldOnJoined(["id", "amt"], out, "amt") == FieldStat("amt", 1, 2)
    ensures OverallDistribution(["id", "amt"], ["id", "amt"], out).totalMatch == 2
    ensures OverallDistribution(["id", "amt"], ["id", "amt"], out).totalMismatch == 4
  {
    var l1, r1 := [Num(1), Num(10)], [Num(1), Num(10)];
    var orphans := [LeftOnly([Num(2), Num(20)]), RightOnly([Num(3), Num(30)])];
    var fields := ["id", "amt"];
    assert out == [Both(l1, r1)] + orphans;
    PairThenOrphans(fields, l1, r1, orphans, 0);
    PairThenOrphans(fields, l1, r1, orphans, 1);
    assert fields[1..] == ["amt"];
    assert fields[1..][1..] == [];
    assert MatchTotal(fields, fields, out) == 1 + MatchTotal(["amt"], fields, out) == 2;
    assert MismatchTotal(fields, fields, out) == 2 + MismatchTotal(["amt"], fields, out) == 4;
  }
}
