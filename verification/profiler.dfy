/** The column profiler run on the NetSuite table when it is loaded
    (Ht.py lines 60-67): a uniqueness score per column, a ranking by that
    score, the primary/secondary/tertiary tiers taken from the ranking, and
    the columns whose names mark them as dates or accounts. */
module Profiler {
  import opened Base
  import opened Cells
  import opened Tables

  /** The distinct values of a column, missing values excluded. */
  function NonNullValues(c: seq<Cell>): set<Cell> {
    set x | x in c && !IsMissing(x)
  }

  /** Number of distinct non-missing values divided by the number of rows,
      and 0 for a column without rows. */
  function UniquenessScore(c: seq<Cell>): (r: real)
    ensures |c| == 0 ==> r == 0.0
    ensures |c| > 0 ==> r * (|c| as real) == |NonNullValues(c)| as real
    ensures 0.0 <= r <= 1.0
  {
    if |c| > 0 then
      NonNullWithinLength(c);
      Ratio(|NonNullValues(c)|, |c|);
      (|NonNullValues(c)| as real) / (|c| as real)
    else 0.0
  }

  lemma Ratio(a: nat, b: nat)
    requires 0 < b && a <= b
    ensures (a as real) / (b as real) * (b as real) == a as real
    ensures 0.0 <= (a as real) / (b as real) <= 1.0
  {
  }

  lemma NonNullWithinLength(c: seq<Cell>)
    ensures |NonNullValues(c)| <= |c|
  {
    var all := Elements(c);
    assert all == NonNullValues(c) + (all - NonNullValues(c));
    ElementsCard(c);
  }

  /** A column paired with its original position and its score. */
  datatype Scored = Scored(name: string, pos: nat, score: real)

  function Scores(t: Table): (s: seq<Scored>)
    requires Wf(t)
    ensures |s| == |t.header|
    ensures forall j :: 0 <= j < |s| ==> s[j] == Scored(t.header[j], j, UniquenessScore(ColumnAt(t, j)))
  {
    seq(|t.header|, j requires 0 <= j < |t.header| => Scored(t.header[j], j, UniquenessScore(ColumnAt(t, j))))
  }

  /** Order of a descending sort that is stable: higher score first, and on
      equal scores the column that came first stays first. */
  predicate Precedes(a: Scored, b: Scored) {
    a.score > b.score || (a.score == b.score && a.pos < b.pos)
  }

  predicate Ranked(s: seq<Scored>) {
    forall i, j :: 0 <= i < j < |s| ==> Precedes(s[i], s[j])
  }

  predicate PositionsIncrease(s: seq<Scored>) {
    forall i, j :: 0 <= i < j < |s| ==> s[i].pos < s[j].pos
  }

  /** Places `x` after every element that scores at least as high. */
  function Insert(x: Scored, s: seq<Scored>): (r: seq<Scored>)
    ensures multiset(r) == multiset(s) + multiset{x}
  {
    if |s| == 0 then [x]
    else if s[0].score >= x.score then
      assert s == [s[0]] + s[1..];
      [s[0]] + Insert(x, s[1..])
    else
      [x] + s
  }

  /** Inserting a column that comes after all ranked ones keeps the ranking. */
  lemma {:induction false} InsertRanked(x: Scored, s: seq<Scored>)
    requires Ranked(s)
    requires forall e :: e in s ==> e.pos < x.pos
    ensures Ranked(Insert(x, s))
  {
    if |s| > 0 && s[0].score >= x.score {
      InsertRanked(x, s[1..]);
      HeadPrecedesInserted(x, s);
      ConsRanked(s[0], Insert(x, s[1..]));
    } else if |s| > 0 {
      forall k | 0 <= k < |s| ensures Precedes(x, s[k]) {
        if k > 0 {
          assert Precedes(s[0], s[k]);
        }
      }
      ConsRanked(x, s);
    }
  }

  /** The head of a ranked sequence precedes everything an insertion behind
      it leaves after it. */
  lemma HeadPrecedesInserted(x: Scored, s: seq<Scored>)
    requires Ranked(s) && |s| > 0 && s[0].score >= x.score
    requires forall e :: e in s ==> e.pos < x.pos
    ensures forall k :: 0 <= k < |Insert(x, s[1..])| ==> Precedes(s[0], Insert(x, s[1..])[k])
  {
    var rest := Insert(x, s[1..]);
    forall k | 0 <= k < |rest| ensures Precedes(s[0], rest[k]) {
      assert rest[k] in multiset(rest);
      if rest[k] != x {
        assert rest[k] in multiset(s[1..]);
        var m :| 0 <= m < |s[1..]| && s[1..][m] == rest[k];
        assert s[m + 1] == rest[k];
      }
    }
  }

  /** Putting an element that precedes all of a ranked sequence in front
      keeps it ranked. */
  lemma ConsRanked(h: Scored, rest: seq<Scored>)
    requires Ranked(rest)
    requires forall k :: 0 <= k < |rest| ==> Precedes(h, rest[k])
    ensures Ranked([h] + rest)
  {
    var r := [h] + rest;
    forall i, j | 0 <= i < j < |r| ensures Precedes(r[i], r[j]) {
      if i == 0 {
        assert r[j] == rest[j - 1];
      } else {
        assert r[i] == rest[i - 1] && r[j] == rest[j - 1];
      }
    }
  }

  /** Python's `sorted(..., key=score, reverse=True)`: a stable descending
      sort, written as an insertion sort. */
  function Rank(s: seq<Scored>): (r: seq<Scored>)
    requires PositionsIncrease(s)
    ensures multiset(r) == multiset(s)
    ensures Ranked(r)
  {
    if |s| == 0 then []
    else
      var p := s[..|s| - 1];
      var x := s[|s| - 1];
      PrefixPositionsIncrease(s);
      var rp := Rank(p);
      EarlierPositions(s, rp);
      assert s == p + [x];
      InsertRanked(x, rp);
      Insert(x, rp)
  }

  lemma PrefixPositionsIncrease(s: seq<Scored>)
    requires PositionsIncrease(s) && |s| > 0
    ensures PositionsIncrease(s[..|s| - 1])
  {
  }

  /** A rearrangement of all but the last column holds only columns that
      come before the last one. */
  lemma EarlierPositions(s: seq<Scored>, rp: seq<Scored>)
    requires PositionsIncrease(s) && |s| > 0
    requires multiset(rp) == multiset(s[..|s| - 1])
    ensures forall e :: e in rp ==> e.pos < s[|s| - 1].pos
  {
    var p := s[..|s| - 1];
    forall e | e in rp ensures e.pos < s[|s| - 1].pos {
      assert e in multiset(rp);
      var m :| 0 <= m < |p| && p[m] == e;
    }
  }

  /** A ranked sequence never lets a lower score come before a higher one. */
  lemma RankedScoresNonIncreasing(s: seq<Scored>, i: nat, j: nat)
    requires Ranked(s) && i < j < |s|
    ensures s[i].score >= s[j].score
    ensures s[i].score == s[j].score ==> s[i].pos < s[j].pos
  {
    assert Precedes(s[i], s[j]);
  }

  function Names(s: seq<Scored>): (r: seq<string>)
    ensures |r| == |s|
    ensures forall i :: 0 <= i < |s| ==> r[i] == s[i].name
  {
    seq(|s|, i requires 0 <= i < |s| => s[i].name)
  }

  /** The three tiers the sidebar preselects: the first 3 ranked columns,
      the next 5, and the rest. */
  datatype Tiers = Tiers(primary: seq<string>, secondary: seq<string>, tertiary: seq<string>)

  const PrimaryCount: nat := 3
  const SecondaryEnd: nat := 8

  function SplitTiers(ranked: seq<string>): (t: Tiers)
    ensures t.primary + t.secondary + t.tertiary == ranked
    ensures |t.primary| == Min(PrimaryCount, |ranked|)
    ensures |t.secondary| == Min(SecondaryEnd, |ranked|) - |t.primary|
    ensures |t.secondary| <= SecondaryEnd - PrimaryCount
    ensures |t.tertiary| > 0 ==> |t.primary| + |t.secondary| == SecondaryEnd
  {
    var a := Min(PrimaryCount, |ranked|);
    var b := Min(SecondaryEnd, |ranked|);
    assert ranked == ranked[..a] + ranked[a..b] + ranked[b..];
    Tiers(ranked[..a], ranked[a..b], ranked[b..])
  }

  function LowerChar(c: char): char {
    if 'A' <= c <= 'Z' then (c as int + 32) as char else c
  }

  function Lower(s: string): (r: string)
    ensures |r| == |s|
  {
    seq(|s|, i requires 0 <= i < |s| => LowerChar(s[i]))
  }

  predicate OccursAt(s: string, token: string, i: int) {
    0 <= i && i + |token| <= |s| && s[i..i + |token|] == token
  }

  predicate Contains(s: string, token: string) {
    exists i | 0 <= i <= |s| - |token| :: OccursAt(s, token, i)
  }

  /** Whether `token` occurs anywhere in the name, ignoring case. */
  predicate NameMentions(name: string, token: string) {
    Contains(Lower(name), token)
  }

  const DateToken: string := "date"
  const AccountToken: string := "account"

  /** The columns whose name mentions `token`, in header order. */
  function ColumnsMentioning(header: seq<string>, token: string): (r: seq<string>)
    ensures forall c :: c in r <==> c in header && NameMentions(c, token)
    ensures |r| <= |header|
  {
    Filter(header, c => NameMentions(c, token))
  }

  /** The token is matched as a substring in any case, so "Close Date" and
      "LAST_UPDATED" are both date columns and "Amount" is not. */
  lemma DateDetectionExample()
    ensures NameMentions("Close Date", DateToken)
    ensures NameMentions("LAST_UPDATED", DateToken)
    ensures !NameMentions("Amount", DateToken)
  {
    assert OccursAt(Lower("Close Date"), DateToken, 6);
    assert OccursAt(Lower("LAST_UPDATED"), DateToken, 7);
    var a := Lower("Amount");
    assert a == "amount";
    forall i | 0 <= i <= |a| - |DateToken| ensures !OccursAt(a, DateToken, i) {
      assert a[i..i + 4][0] == a[i] != 'd';
    }
  }

  datatype Profile = Profile(order: seq<Scored>, tiers: Tiers, dateCols: seq<string>, accountCols: seq<string>)

  /** Profiles a loaded table: every column appears once in the ranking with
      its own score, scores never increase along the ranking, and the tiers
      cut the ranking into consecutive pieces. */
  function ProfileTable(t: Table): (p: Profile)
    requires Wf(t)
    ensures |p.order| == |t.header|
    ensures multiset(p.order) == multiset(Scores(t))
    ensures forall i :: 0 <= i < |p.order| ==>
              p.order[i].pos < |t.header| &&
              p.order[i].name == t.header[p.order[i].pos] &&
              p.order[i].score == UniquenessScore(ColumnAt(t, p.order[i].pos))
    ensures forall i, j :: 0 <= i < j < |p.order| ==> p.order[i].score >= p.order[j].score
    ensures forall i, j :: 0 <= i < j < |p.order| && p.order[i].score == p.order[j].score ==>
              p.order[i].pos < p.order[j].pos
    ensures p.tiers == SplitTiers(Names(p.order))
    ensures p.tiers.primary + p.tiers.secondary + p.tiers.tertiary == Names(p.order)
    ensures forall c :: c in p.dateCols <==> c in t.header && NameMentions(c, DateToken)
    ensures forall c :: c in p.accountCols <==> c in t.header && NameMentions(c, AccountToken)
  {
    var r := Rank(Scores(t));
    RankedOrderFacts(r);
    RankedEntriesFromTable(t, r);
    Profile(r, SplitTiers(Names(r)), ColumnsMentioning(t.header, DateToken), ColumnsMentioning(t.header, AccountToken))
  }

  lemma RankedOrderFacts(r: seq<Scored>)
    requires Ranked(r)
    ensures forall i, j :: 0 <= i < j < |r| ==> r[i].score >= r[j].score
    ensures forall i, j :: 0 <= i < j < |r| && r[i].score == r[j].score ==> r[i].pos < r[j].pos
  {
    forall i, j | 0 <= i < j < |r|
      ensures r[i].score >= r[j].score
      ensures r[i].score == r[j].score ==> r[i].pos < r[j].pos
    {
      RankedScoresNonIncreasing(r, i, j);
    }
  }

  lemma RankedEntriesFromTable(t: Table, r: seq<Scored>)
    requires Wf(t)
    requires multiset(r) == multiset(Scores(t))
    ensures |r| == |t.header|
    ensures forall i :: 0 <= i < |r| ==>
              r[i].pos < |t.header| &&
              r[i].name == t.header[r[i].pos] &&
              r[i].score == UniquenessScore(ColumnAt(t, r[i].pos))
  {
    var s := Scores(t);
    assert |r| == |multiset(r)| == |multiset(s)| == |s|;
    forall i | 0 <= i < |r|
      ensures r[i].pos < |t.header| && r[i].name == t.header[r[i].pos]
      ensures r[i].score == UniquenessScore(ColumnAt(t, r[i].pos))
    {
      assert r[i] in multiset(s);
    }
  }
}
