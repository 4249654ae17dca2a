/** Small generic building blocks shared by every component of the
    reconciliation model: optional values, results, counting, filtering,
    duplicate-free sequences and sums. */
module Base {

  datatype Option<T> = None | Some(value: T)

  datatype Result<T, E> = Ok(value: T) | Err(error: E)

  function Min(a: nat, b: nat): nat { if a <= b then a else b }

  /** Number of elements of `s` that satisfy `p`. */
  function Count<T>(s: seq<T>, p: T -> bool): (n: nat)
    ensures n <= |s|
  {
    if |s| == 0 then 0 else (if p(s[0]) then 1 else 0) + Count(s[1..], p)
  }

  /** The elements of `s` that satisfy `p`, in their original order. */
  function Filter<T(!new)>(s: seq<T>, p: T -> bool): (r: seq<T>)
    ensures |r| == Count(s, p)
    ensures forall x :: x in r <==> x in s && p(x)
  {
    if |s| == 0 then []
    else (if p(s[0]) then [s[0]] else []) + Filter(s[1..], p)
  }

  lemma {:induction false} CountAppend<T>(a: seq<T>, b: seq<T>, p: T -> bool)
    ensures Count(a + b, p) == Count(a, p) + Count(b, p)
  {
    if |a| == 0 {
      assert a + b == b;
    } else {
      assert (a + b)[1..] == a[1..] + b;
      CountAppend(a[1..], b, p);
    }
  }

  lemma {:induction false} CountNone<T>(s: seq<T>, p: T -> bool)
    requires forall i :: 0 <= i < |s| ==> !p(s[i])
    ensures Count(s, p) == 0
  {
    if |s| > 0 {
      CountNone(s[1..], p);
    }
  }

  lemma {:induction false} CountAll<T>(s: seq<T>, p: T -> bool)
    requires forall i :: 0 <= i < |s| ==> p(s[i])
    ensures Count(s, p) == |s|
  {
    if |s| > 0 {
      CountAll(s[1..], p);
    }
  }

  /** When `q` is the negation of `p` on `s`, every element is counted by
      exactly one of them. */
  lemma {:induction false} CountComplement<T>(s: seq<T>, p: T -> bool, q: T -> bool)
    requires forall i :: 0 <= i < |s| ==> (q(s[i]) <==> !p(s[i]))
    ensures Count(s, p) + Count(s, q) == |s|
  {
    if |s| > 0 {
      CountComplement(s[1..], p, q);
    }
  }

  /** Two predicates that agree on the elements of `s` count alike. */
  lemma {:induction false} CountCongruent<T>(s: seq<T>, p: T -> bool, q: T -> bool)
    requires forall i :: 0 <= i < |s| ==> (p(s[i]) <==> q(s[i]))
    ensures Count(s, p) == Count(s, q)
  {
    if |s| > 0 {
      CountCongruent(s[1..], p, q);
    }
  }

  /** Counts of two exclusive predicates add up to the count of their
      disjunction `r`. */
  lemma {:induction false} CountDisjoint<T>(s: seq<T>, p: T -> bool, q: T -> bool, r: T -> bool)
    requires forall i :: 0 <= i < |s| ==> !(p(s[i]) && q(s[i]))
    requires forall i :: 0 <= i < |s| ==> (r(s[i]) <==> p(s[i]) || q(s[i]))
    ensures Count(s, p) + Count(s, q) == Count(s, r)
  {
    if |s| > 0 {
      CountDisjoint(s[1..], p, q, r);
    }
  }

  lemma {:induction false} FilterAppend<T(!new)>(a: seq<T>, b: seq<T>, p: T -> bool)
    ensures Filter(a + b, p) == Filter(a, p) + Filter(b, p)
  {
    if |a| == 0 {
      assert a + b == b;
    } else {
      assert (a + b)[1..] == a[1..] + b;
      FilterAppend(a[1..], b, p);
    }
  }

  /** Filtering with a predicate every element satisfies keeps everything. */
  lemma {:induction false} FilterAll<T(!new)>(s: seq<T>, p: T -> bool)
    requires forall i :: 0 <= i < |s| ==> p(s[i])
    ensures Filter(s, p) == s
  {
    if |s| > 0 {
      FilterAll(s[1..], p);
      assert s == [s[0]] + s[1..];
    }
  }

  /** Filtering twice with the same predicate keeps what filtering once kept. */
  lemma {:induction false} FilterIdempotent<T(!new)>(s: seq<T>, p: T -> bool)
    ensures Filter(Filter(s, p), p) == Filter(s, p)
  {
    if |s| > 0 {
      var head := if p(s[0]) then [s[0]] else [];
      FilterIdempotent(s[1..], p);
      FilterAppend(head, Filter(s[1..], p), p);
      assert Filter(head, p) == head by {
        if p(s[0]) {
          assert head[1..] == [];
        }
      }
    }
  }

  /** Number of indices below `n` that satisfy `p`. */
  function CountBelow(n: nat, p: nat -> bool): (r: nat)
    ensures r <= n
  {
    if n == 0 then 0 else CountBelow(n - 1, p) + (if p(n - 1) then 1 else 0)
  }

  lemma {:induction false} CountBelowMonotone(n: nat, p: nat -> bool, q: nat -> bool)
    requires forall i :: 0 <= i < n ==> (p(i) ==> q(i))
    ensures CountBelow(n, p) <= CountBelow(n, q)
  {
    if n > 0 {
      CountBelowMonotone(n - 1, p, q);
    }
  }

  /** `CountBelow` counts the set of indices below `n` that satisfy `p`. */
  lemma {:induction false} CountBelowCard(n: nat, p: nat -> bool)
    ensures CountBelow(n, p) == |set i: nat | i < n && p(i)|
  {
    if n > 0 {
      CountBelowCard(n - 1, p);
      var prev := set i: nat | i < n - 1 && p(i);
      var cur := set i: nat | i < n && p(i);
      if p(n - 1) {
        assert cur == prev + {n - 1};
      } else {
        assert cur == prev;
      }
    }
  }

  /** An index below `n` that fails `p` keeps the count below `n`. */
  lemma {:induction false} CountBelowMiss(n: nat, p: nat -> bool, i: nat)
    requires i < n && !p(i)
    ensures CountBelow(n, p) < n
  {
    if i < n - 1 {
      CountBelowMiss(n - 1, p, i);
    }
  }

  lemma {:induction false} CountPrefixes<T>(s: seq<T>, p: T -> bool, n: nat)
    requires n <= |s|
    ensures Count(s[..n], p) == CountBelow(n, (i: nat) => i < |s| && p(s[i]))
  {
    if n > 0 {
      CountPrefixes(s, p, n - 1);
      assert s[..n] == s[..n - 1] + [s[n - 1]];
      CountAppend(s[..n - 1], [s[n - 1]], p);
      assert [s[n - 1]][1..] == [];
    }
  }

  /** `Count` counts the set of positions whose element satisfies `p`. */
  lemma CountCard<T>(s: seq<T>, p: T -> bool)
    ensures Count(s, p) == |set i: nat | i < |s| && p(s[i])|
  {
    CountPrefixes(s, p, |s|);
    assert s[..|s|] == s;
    var q := (i: nat) => i < |s| && p(s[i]);
    CountBelowCard(|s|, q);
    assert (set i: nat | i < |s| && q(i)) == (set i: nat | i < |s| && p(s[i]));
  }

  /** `Count` is the size of any set holding exactly the positions whose
      element satisfies `p`. */
  lemma CountIsCard<T>(s: seq<T>, p: T -> bool, positions: set<nat>)
    requires forall i: nat :: i in positions <==> i < |s| && p(s[i])
    ensures Count(s, p) == |positions|
  {
    CountCard(s, p);
    assert positions == set i: nat | i < |s| && p(s[i]);
  }

  predicate Distinct<T(==)>(s: seq<T>) {
    forall i, j :: 0 <= i < j < |s| ==> s[i] != s[j]
  }

  /** Removes repeated elements, keeping each first occurrence in place
      (the order `dict.fromkeys` keeps). */
  function Dedup<T(==,!new)>(s: seq<T>): (r: seq<T>)
    ensures Distinct(r)
    ensures forall x :: x in r <==> x in s
    ensures |r| <= |s|
  {
    if |s| == 0 then []
    else
      var d := Dedup(s[..|s| - 1]);
      assert forall x :: x in s <==> x in s[..|s| - 1] || x == s[|s| - 1];
      if s[|s| - 1] in d then d else d + [s[|s| - 1]]
  }

  /** On a sequence that already has no repetition, `Dedup` changes nothing. */
  lemma {:induction false} DedupOfDistinct<T(!new)>(s: seq<T>)
    requires Distinct(s)
    ensures Dedup(s) == s
  {
    if |s| > 0 {
      var p := s[..|s| - 1];
      assert Distinct(p);
      DedupOfDistinct(p);
      assert s[|s| - 1] !in p;
      assert p + [s[|s| - 1]] == s;
    }
  }

  /** Two sequences without repetition and without common elements join into
      one without repetition. */
  lemma DistinctConcat<T>(a: seq<T>, b: seq<T>)
    requires Distinct(a) && Distinct(b)
    requires forall x :: x in a ==> x !in b
    ensures Distinct(a + b)
  {
    forall i, j | 0 <= i < j < |a + b| ensures (a + b)[i] != (a + b)[j] {
      if i < |a| && j >= |a| {
        assert (a + b)[i] in a && (a + b)[j] == b[j - |a|];
      }
    }
  }

  /** Filtering a sequence without repetition leaves one without repetition. */
  lemma {:induction false} FilterDistinct<T(!new)>(s: seq<T>, p: T -> bool)
    requires Distinct(s)
    ensures Distinct(Filter(s, p))
  {
    if |s| > 0 {
      var rest := Filter(s[1..], p);
      FilterDistinct(s[1..], p);
      assert s[0] !in s[1..];
      assert s[0] !in rest;
      var r := Filter(s, p);
      if p(s[0]) {
        forall i, j | 0 <= i < j < |r| ensures r[i] != r[j] {
          assert r[j] == rest[j - 1];
          if i > 0 {
            assert r[i] == rest[i - 1];
          }
        }
      }
    }
  }

  function Elements<T>(s: seq<T>): set<T> {
    set x | x in s
  }

  /** A sequence has at least as many positions as distinct elements, with
      equality exactly when it has no repetition. */
  lemma {:induction false} ElementsCard<T>(s: seq<T>)
    ensures |Elements(s)| <= |s|
    ensures |Elements(s)| == |s| <==> Distinct(s)
  {
    if |s| > 0 {
      var p := s[..|s| - 1];
      var x := s[|s| - 1];
      ElementsCard(p);
      assert s == p + [x];
      assert Elements(s) == Elements(p) + {x};
      if x in p {
        assert Elements(s) == Elements(p);
        var k :| 0 <= k < |p| && p[k] == x;
        assert s[k] == s[|s| - 1];
        assert !Distinct(s);
      } else {
        assert |Elements(s)| == |Elements(p)| + 1;
        if Distinct(p) {
          assert Distinct(s);
        } else {
          var i, j :| 0 <= i < j < |p| && p[i] == p[j];
          assert s[i] == s[j];
        }
      }
    }
  }

  /** A percentage with the zero-denominator guard the dashboard applies to
      every rate: `part / whole * 100`, or 0 when `whole` is 0. */
  function Percent(part: nat, whole: nat): (r: real)
    ensures whole == 0 ==> r == 0.0
    ensures whole > 0 ==> r * (whole as real) == (part as real) * 100.0
    ensures 0.0 <= r
    ensures part <= whole ==> r <= 100.0
  {
    if whole > 0 then (part as real) / (whole as real) * 100.0 else 0.0
  }

  /** Two zero-guarded shares of the same non-empty whole add up to 100 when
      the parts make up the whole. */
  lemma PercentsComplement(a: nat, b: nat)
    requires a + b > 0
    ensures Percent(a, a + b) + Percent(b, a + b) == 100.0
  {
    var w := (a + b) as real;
    assert (a as real) / w + (b as real) / w == w / w;
  }

  /** A part of a whole and the rest of it have shares adding up to 100
      when the whole is not empty. */
  lemma PercentsOfWhole(part: nat, whole: nat)
    requires part <= whole
    ensures whole > 0 ==> Percent(part, whole) + Percent(whole - part, whole) == 100.0
  {
    if whole > 0 {
      PercentsComplement(part, whole - part);
    }
  }
}
