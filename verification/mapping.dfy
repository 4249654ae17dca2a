/** The two ways the Salesforce columns are aligned with the NetSuite ones
    before comparison (Ht.py lines 117-155): renaming by position, or
    renaming through a column-by-column choice made in the sidebar. */
module Mapping {
  import opened Base

  /** Relabels every name found in `m` and keeps the others, as
      `DataFrame.rename(columns=m)` does. */
  function Rename(names: seq<string>, m: map<string, string>): (r: seq<string>)
    ensures |r| == |names|
    ensures forall i :: 0 <= i < |names| ==> r[i] == (if names[i] in m then m[names[i]] else names[i])
  {
    seq(|names|, i requires 0 <= i < |names| => if names[i] in m then m[names[i]] else names[i])
  }

  /** The dictionary `{sf[i]: ns[i] for i in range(n)}`, entries added in
      index order. */
  function PositionalMap<N>(ns: seq<N>, sf: seq<N>, n: nat): map<N, N>
    requires n <= |ns| && n <= |sf|
  {
    if n == 0 then map[] else PositionalMap(ns, sf, n - 1)[sf[n - 1] := ns[n - 1]]
  }

  lemma {:induction false} PositionalMapKeys<N>(ns: seq<N>, sf: seq<N>, n: nat)
    requires n <= |ns| && n <= |sf|
    ensures forall c :: c in PositionalMap(ns, sf, n) <==> c in sf[..n]
  {
    if n > 0 {
      PositionalMapKeys(ns, sf, n - 1);
      assert sf[..n] == sf[..n - 1] + [sf[n - 1]];
    }
  }

  lemma {:induction false} PositionalMapEntries<N>(ns: seq<N>, sf: seq<N>, n: nat)
    requires n <= |ns| && n <= |sf| && Distinct(sf)
    ensures forall i :: 0 <= i < n ==> sf[i] in PositionalMap(ns, sf, n) && PositionalMap(ns, sf, n)[sf[i]] == ns[i]
    ensures |PositionalMap(ns, sf, n)| == n
  {
    PositionalMapKeys(ns, sf, n);
    assert forall i :: 0 <= i < n ==> sf[..n][i] == sf[i];
    if n > 0 {
      PositionalMapEntries(ns, sf, n - 1);
      PositionalMapKeys(ns, sf, n - 1);
      var m := PositionalMap(ns, sf, n - 1);
      assert sf[n - 1] !in m;
      var m' := m[sf[n - 1] := ns[n - 1]];
      assert |m'| == |m| + 1;
      forall i | 0 <= i < n - 1 ensures m'[sf[i]] == ns[i] {
        assert sf[i] != sf[n - 1];
        assert m[sf[i]] == ns[i];
      }
    }
  }

  /** The rename dictionary of the "By Position" method: as many entries as
      the shorter header has columns, the i-th Salesforce name going to the
      i-th NetSuite name. */
  function PositionalRenameMap(ns: seq<string>, sf: seq<string>): (m: map<string, string>)
    ensures forall c :: c in m ==> c in sf[..Min(|ns|, |sf|)]
    ensures Distinct(sf) ==> |m| == Min(|ns|, |sf|)
    ensures Distinct(sf) ==> forall i :: 0 <= i < Min(|ns|, |sf|) ==> sf[i] in m && m[sf[i]] == ns[i]
  {
    var n := Min(|ns|, |sf|);
    PositionalMapKeys(ns, sf, n);
    assert Distinct(sf) ==> (|PositionalMap(ns, sf, n)| == n &&
      forall i :: 0 <= i < n ==> sf[i] in PositionalMap(ns, sf, n) && PositionalMap(ns, sf, n)[sf[i]] == ns[i]) by {
      if Distinct(sf) {
        PositionalMapEntries(ns, sf, n);
      }
    }
    PositionalMap(ns, sf, n)
  }

  /** The Salesforce header after the "By Position" rename: column i takes the
      NetSuite name of column i for every i the two headers share, and the
      columns beyond keep their own names. */
  function PositionalRename(ns: seq<string>, sf: seq<string>): (r: seq<string>)
    ensures |r| == |sf|
    ensures Distinct(sf) ==> forall i :: 0 <= i < Min(|ns|, |sf|) ==> r[i] == ns[i]
    ensures Distinct(sf) ==> forall i :: Min(|ns|, |sf|) <= i < |sf| ==> r[i] == sf[i]
  {
    var n := Min(|ns|, |sf|);
    var m := PositionalRenameMap(ns, sf);
    assert Distinct(sf) ==> forall i :: n <= i < |sf| ==> sf[i] !in m;
    Rename(sf, m)
  }

  /** Three NetSuite columns against two Salesforce ones: both Salesforce
      columns are renamed and the third NetSuite column has no counterpart. */
  lemma PositionalExample()
    ensures PositionalRenameMap(["A", "B", "C"], ["X", "Y"]) == map["X" := "A", "Y" := "B"]
    ensures PositionalRename(["A", "B", "C"], ["X", "Y"]) == ["A", "B"]
  {
    assert PositionalMap(["A", "B", "C"], ["X", "Y"], 1) == map["X" := "A"];
    assert PositionalMap(["A", "B", "C"], ["X", "Y"], 2) == map["X" := "A", "Y" := "B"];
  }

  /** A Salesforce column beyond the shared prefix keeps its name even when
      the rename has just given that name to another column, so the renamed
      header can repeat a name. */
  lemma PositionalRenameCanRepeatNames()
    ensures PositionalRename(["a", "b"], ["x", "y", "a"]) == ["a", "b", "a"]
    ensures !Distinct(PositionalRename(["a", "b"], ["x", "y", "a"]))
  {
    assert PositionalMap(["a", "b"], ["x", "y", "a"], 1) == map["x" := "a"];
    assert PositionalMap(["a", "b"], ["x", "y", "a"], 2) == map["x" := "a", "y" := "b"];
    var r := PositionalRename(["a", "b"], ["x", "y", "a"]);
    assert r[0] == r[2];
  }

  /** The sidebar option that leaves a Salesforce column unmapped. */
  const Skip: string := "(Skip)"

  /** Among the first `n` Salesforce columns, the choice for column `i` takes
      effect: it is not "(Skip)" and no later column picked the same name. */
  predicate KeptUpTo(choices: seq<string>, i: nat, n: nat)
    requires i < n <= |choices|
  {
    choices[i] != Skip && forall j :: i < j < n ==> choices[j] != choices[i]
  }

  predicate Kept(choices: seq<string>, i: nat)
    requires i < |choices|
  {
    KeptUpTo(choices, i, |choices|)
  }

  /** `column_mapping` after the sidebar loop has visited the first `n`
      Salesforce columns: each non-skipped choice stores its column under the
      chosen NetSuite name, overwriting an earlier one. */
  function MappingUpTo(sf: seq<string>, choices: seq<string>, n: nat): map<string, string>
    requires n <= |sf| == |choices|
  {
    if n == 0 then map[]
    else
      var m := MappingUpTo(sf, choices, n - 1);
      if choices[n - 1] == Skip then m else m[choices[n - 1] := sf[n - 1]]
  }

  /** Every non-skipped choice is a key, and every key holds the column of the
      one choice for it that was kept. */
  lemma {:induction false} MappingUpToEntries(sf: seq<string>, choices: seq<string>, n: nat)
    requires n <= |sf| == |choices|
    ensures forall i :: 0 <= i < n && choices[i] != Skip ==> choices[i] in MappingUpTo(sf, choices, n)
    ensures forall k :: k in MappingUpTo(sf, choices, n) ==>
              exists j :: 0 <= j < n && choices[j] == k && KeptUpTo(choices, j, n) && MappingUpTo(sf, choices, n)[k] == sf[j]
  {
    if n > 0 {
      MappingUpToEntries(sf, choices, n - 1);
      var p := MappingUpTo(sf, choices, n - 1);
      var m := MappingUpTo(sf, choices, n);
      forall k | k in m
        ensures exists j :: 0 <= j < n && choices[j] == k && KeptUpTo(choices, j, n) && m[k] == sf[j]
      {
        if k == choices[n - 1] && choices[n - 1] != Skip {
          assert KeptUpTo(choices, n - 1, n);
        } else {
          var j :| 0 <= j < n - 1 && choices[j] == k && KeptUpTo(choices, j, n - 1) && p[k] == sf[j];
          assert KeptUpTo(choices, j, n);
        }
      }
    }
  }

  /** The dictionary `column_mapping` (NetSuite name to Salesforce name):
      one entry per NetSuite name chosen at least once, holding the last
      Salesforce column that chose it. */
  function ManualMapping(sf: seq<string>, choices: seq<string>): (m: map<string, string>)
    requires |choices| == |sf|
    ensures m.Keys == Elements(choices) - {Skip}
    ensures forall i :: 0 <= i < |sf| && Kept(choices, i) ==> m[choices[i]] == sf[i]
    ensures forall k :: k in m ==> m[k] in sf
  {
    var m := MappingUpTo(sf, choices, |sf|);
    MappingUpToEntries(sf, choices, |sf|);
    assert forall i :: 0 <= i < |sf| && Kept(choices, i) ==> m[choices[i]] == sf[i] by {
      forall i | 0 <= i < |sf| && Kept(choices, i) ensures m[choices[i]] == sf[i] {
        var j :| 0 <= j < |sf| && choices[j] == choices[i] && KeptUpTo(choices, j, |sf|) && m[choices[i]] == sf[j];
        assert i == j;
      }
    }
    assert forall k :: k in m ==> m[k] in sf by {
      forall k | k in m ensures m[k] in sf {
        var j :| 0 <= j < |sf| && choices[j] == k && KeptUpTo(choices, j, |sf|) && m[k] == sf[j];
      }
    }
    m
  }

  predicate Injective(m: map<string, string>) {
    forall a, b :: a in m && b in m && a != b ==> m[a] != m[b]
  }

  /** With unique Salesforce names, a Salesforce column is held by exactly the
      NetSuite name whose choice was kept, so no two names share a column. */
  lemma ManualMappingOwners(sf: seq<string>, choices: seq<string>)
    requires |choices| == |sf| && Distinct(sf)
    ensures forall k, i :: k in ManualMapping(sf, choices) && 0 <= i < |sf| && ManualMapping(sf, choices)[k] == sf[i] ==>
              choices[i] == k && Kept(choices, i)
    ensures Injective(ManualMapping(sf, choices))
  {
    var m := ManualMapping(sf, choices);
    MappingUpToEntries(sf, choices, |sf|);
    forall k, i | k in m && 0 <= i < |sf| && m[k] == sf[i] ensures choices[i] == k && Kept(choices, i) {
      var j :| 0 <= j < |sf| && choices[j] == k && KeptUpTo(choices, j, |sf|) && m[k] == sf[j];
    }
  }

  /** Swaps keys and values of an injective dictionary
      (`{v: k for k, v in column_mapping.items()}`). */
  function Invert(m: map<string, string>): (r: map<string, string>)
    requires Injective(m)
    ensures r.Keys == m.Values
    ensures forall k :: k in m ==> r[m[k]] == k
  {
    var r := map v | v in m.Values :: var k :| k in m && m[k] == v; k;
    assert forall k :: k in m ==> r[m[k]] == k by {
      forall k | k in m ensures r[m[k]] == k {
        var k' := r[m[k]];
        assert k' in m && m[k'] == m[k];
      }
    }
    r
  }

  /** The Salesforce header after the "By Name" rename: a column whose choice
      was kept takes the chosen NetSuite name; a skipped column, and one whose
      NetSuite name a later column took over, keeps its own name. */
  function ManualRename(sf: seq<string>, choices: seq<string>): (r: seq<string>)
    requires |choices| == |sf| && Distinct(sf)
    ensures |r| == |sf|
    ensures forall i :: 0 <= i < |sf| ==> r[i] == (if Kept(choices, i) then choices[i] else sf[i])
  {
    var m := ManualMapping(sf, choices);
    ManualMappingOwners(sf, choices);
    if |m| > 0 then
      var inv := Invert(m);
      assert forall i :: 0 <= i < |sf| ==> (sf[i] in inv <==> Kept(choices, i)) by {
        forall i | 0 <= i < |sf| ensures sf[i] in inv <==> Kept(choices, i) {
          if Kept(choices, i) {
            assert m[choices[i]] == sf[i];
          }
        }
      }
      Rename(sf, inv)
    else
      assert forall i :: 0 <= i < |sf| ==> !Kept(choices, i);
      sf
  }

  /** A NetSuite name chosen for two Salesforce columns goes to the later one;
      the earlier column keeps its own name, and "(Skip)" renames nothing. */
  lemma ManualLastChoiceWins()
    ensures ManualMapping(["p", "q", "r"], ["A", "A", Skip]) == map["A" := "q"]
    ensures ManualRename(["p", "q", "r"], ["A", "A", Skip]) == ["p", "A", "r"]
  {
    var sf, choices := ["p", "q", "r"], ["A", "A", Skip];
    assert Kept(choices, 1);
    assert !Kept(choices, 0) by {
      assert choices[1] == choices[0];
    }
    assert MappingUpTo(sf, choices, 1) == map["A" := "p"];
    assert MappingUpTo(sf, choices, 2) == map["A" := "q"];
    assert ManualMapping(sf, choices) == map["A" := "q"];
  }
}
