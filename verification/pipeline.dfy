/** The comparison run end to end (Ht.py lines 117-271): the Salesforce
    columns are mapped onto the NetSuite ones, the account filter is
    applied, both tables are aligned on the field list, joined on the merge
    key, and the overview statistics are taken from the joined rows. */
module Pipeline {
  import opened Base
  import opened Cells
  import opened Tables
  import opened Mapping
  import opened Alignment
  import opened Join
  import opened JoinedStats
  import opened Profiler

  /** The two mapping methods of the sidebar; `ByName` carries the option
      picked for each Salesforce column. */
  datatype Method = ByPosition | ByName(choices: seq<string>)

  predicate MethodFits(sf: Table, m: Method) {
    m.ByName? ==> |m.choices| == |sf.header|
  }

  /** The Salesforce table under its new header; the rows are untouched. */
  function MapColumns(nsHeader: seq<string>, sf: Table, m: Method): (r: Table)
    requires Loaded(sf) && MethodFits(sf, m)
    ensures r.rows == sf.rows && |r.header| == |sf.header| && Wf(r)
    ensures m.ByPosition? ==> forall i :: 0 <= i < Min(|nsHeader|, |sf.header|) ==> r.header[i] == nsHeader[i]
    ensures m.ByPosition? ==> forall i :: Min(|nsHeader|, |sf.header|) <= i < |sf.header| ==> r.header[i] == sf.header[i]
    ensures m.ByName? ==> forall i :: 0 <= i < |sf.header| ==>
              r.header[i] == (if Kept(m.choices, i) then m.choices[i] else sf.header[i])
  {
    match m
    case ByPosition => Table(PositionalRename(nsHeader, sf.header), sf.rows)
    case ByName(choices) => Table(ManualRename(sf.header, choices), sf.rows)
  }

  /** What the overview shows once the tables are joined. */
  datatype Summary = Summary(
    joined: seq<Joined>, fields: seq<string>, key: string,
    totalMatch: nat, totalMismatch: nat,
    nsOrphans: seq<Joined>, sfOrphans: seq<Joined>,
    overview: Overview)

  /** The position of the key in the aligned field list, which is also its
      column in both aligned tables. */
  function KeyColumn(a: Aligned): (k: nat)
    requires a.key in a.fields
    ensures k < |a.fields| && a.fields[k] == a.key
  {
    IndexOf(a.fields, a.key).value
  }

  /** What the sidebar leaves to the user: the ticked fields of each tier
      and the optional date and account columns. The merge key is not among
      them; it is taken from the profile of the NetSuite table. */
  datatype Picks = Picks(
    primary: seq<string>, secondary: seq<string>, tertiary: seq<string>,
    dateCol: Option<string>, accountCol: Option<string>)

  /** `merge_key`: the first column of the primary tier the profiler
      preselects, whatever the user ticks. */
  function ProfiledKey(ns: Table): (k: Option<string>)
    requires Wf(ns)
    ensures k.Some? <==> |ns.header| > 0
    ensures k.Some? ==> k.value in ns.header
  {
    if |ns.header| > 0 then MergeKeyIsMostUnique(ns); MergeKey(ProfileTable(ns).tiers.primary)
    else MergeKey(ProfileTable(ns).tiers.primary)
  }

  function WithKey(p: Picks, key: Option<string>): (sel: Selection)
    ensures sel.key == key
  {
    Selection(p.primary, p.secondary, p.tertiary, key, p.dateCol, p.accountCol)
  }

  /** The whole run. It fails only when the account column is unknown to
      NetSuite, when a renamed header repeats a name, or when there is no
      merge key; otherwise the join is on the NetSuite column the profiler
      ranks first, every joined row is counted once by the totals, the
      orphans are the unpaired rows of each side, and the key field matches
      on every paired row. The library's refusal to merge a number key with
      a text key is not modelled: the join compares keys by value. */
  function Reconcile(ns: Table, sf: Table, m: Method, picks: Picks, accounts: seq<Cell>): (r: Result<Summary, AlignError>)
    requires Loaded(ns) && Loaded(sf) && MethodFits(sf, m)
    ensures r.Err? ==> r.error == MissingKey || r.error == DuplicateLabels || r.error.UnknownColumn?
    ensures !Truthy(ProfiledKey(ns)) ==> r.Err?
    ensures (Truthy(ProfiledKey(ns)) && Distinct(MapColumns(ns.header, sf, m).header) &&
             (|accounts| > 0 && Truthy(picks.accountCol) ==> picks.accountCol.value in ns.header)) ==> r.Ok?
    ensures r.Ok? ==> r.value.totalMatch + r.value.totalMismatch == |r.value.joined|
    ensures r.Ok? ==> r.value.totalMismatch == |r.value.nsOrphans| + |r.value.sfOrphans|
    ensures r.Ok? ==> Distinct(r.value.fields) && r.value.key in r.value.fields
    ensures r.Ok? ==> Some(r.value.key) == ProfiledKey(ns) && r.value.key in ns.header
    ensures r.Ok? ==> FieldOnJoined(r.value.fields, r.value.joined, r.value.key).matches == r.value.totalMatch
  {
    var sel := WithKey(picks, ProfiledKey(ns));
    var renamed := MapColumns(ns.header, sf, m);
    match AccountFilter(Sources(ns, renamed), sel.accountCol, accounts)
    case Err(e) => Err(e)
    case Ok(filtered) =>
      match Align(filtered, sel)
      case Err(e) => Err(e)
      case Ok(a) =>
        var k := KeyColumn(a);
        var out := OuterJoin(a.ns.rows, a.sf.rows, k);
        TotalsCoverJoin(out);
        MismatchIsOrphans(out);
        KeyFieldAlwaysMatches(a.ns.rows, a.sf.rows, a.fields, k);
        var excel := ExcelFields(ns.header, sf.header);
        Ok(Summary(out, a.fields, a.key, TotalMatch(out), TotalMismatch(out),
                   NetSuiteOrphans(out), SalesforceOrphans(out), OverallDistribution(excel, a.fields, out)))
  }

  /** The profiled key is the NetSuite column with the highest uniqueness
      score, the leftmost one among equal scores; `Reconcile` joins on it
      whenever it goes ahead. */
  lemma ProfiledKeyIsMostUnique(ns: Table)
    requires Loaded(ns)
    ensures ProfiledKey(ns).Some? ==>
              var j := IndexOf(ns.header, ProfiledKey(ns).value).value;
              (forall k :: 0 <= k < |ns.header| ==> UniquenessScore(ColumnAt(ns, k)) <= UniquenessScore(ColumnAt(ns, j))) &&
              (forall k :: 0 <= k < j ==> UniquenessScore(ColumnAt(ns, k)) < UniquenessScore(ColumnAt(ns, j)))
  {
    if |ns.header| > 0 {
      MergeKeyIsMostUnique(ns);
      IndexOfDistinct(ns.header, ProfileTable(ns).order[0].pos);
    }
  }
}
