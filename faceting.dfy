/**
 * What `facet_by` computes from the rows, as pure functions: the dictionary it builds
 * as written, the order in which its keys come out, and the grouping it was meant to build.
 */
module Faceting {
  import opened Strings
  import opened Sorting
  import opened Grid

  /** Some row has `k` at `idx`. */
  ghost predicate HasValue(rows: seq<Cells>, idx: nat, k: string)
    requires Reaches(rows, idx)
  {
    exists i :: 0 <= i < |rows| && rows[i][idx] == k
  }

  /** Row `i` is the last row with `k` at `idx`. */
  ghost predicate LastWith(rows: seq<Cells>, idx: nat, i: int, k: string)
    requires Reaches(rows, idx)
  {
    0 <= i < |rows| && rows[i][idx] == k && forall j :: i < j < |rows| ==> rows[j][idx] != k
  }

  ghost predicate Distinct<T>(s: seq<T>) {
    forall i, j :: 0 <= i < j < |s| ==> s[i] != s[j]
  }

  lemma ReachesPrefix(rows: seq<Cells>, idx: nat, n: nat)
    requires Reaches(rows, idx) && n <= |rows|
    ensures Reaches(rows[..n], idx)
  {
    forall row | row in rows[..n] ensures idx < |row| {
      var i :| 0 <= i < n && rows[..n][i] == row;
      assert rows[i] == row;
    }
  }

  /** A value occurs in the rows when it occurs before the last row or in the last row. */
  lemma HasValueLast(rows: seq<Cells>, idx: nat)
    requires Reaches(rows, idx) && |rows| > 0
    ensures Reaches(rows[..|rows| - 1], idx)
    ensures forall k :: HasValue(rows, idx, k) <==>
      HasValue(rows[..|rows| - 1], idx, k) || rows[|rows| - 1][idx] == k
  {
    var n := |rows| - 1;
    var prefix := rows[..n];
    ReachesPrefix(rows, idx, n);
    forall k ensures HasValue(rows, idx, k) <==> HasValue(prefix, idx, k) || rows[n][idx] == k {
      if HasValue(rows, idx, k) && rows[n][idx] != k {
        var i :| 0 <= i < |rows| && rows[i][idx] == k;
        assert prefix[i] == rows[i];
      }
      if HasValue(prefix, idx, k) {
        var i :| 0 <= i < |prefix| && prefix[i][idx] == k;
        assert rows[i] == prefix[i];
      }
    }
  }

  /**
   * The dictionary the loop of `facet_by` leaves behind, as written: each hit rebinds the value
   * to a fresh one-element list, so every value ends up with the last row that carries it.
   */
  function LastByValue(rows: seq<Cells>, idx: nat): map<string, Cells>
    requires Reaches(rows, idx)
  {
    if |rows| == 0 then map[]
    else
      ReachesPrefix(rows, idx, |rows| - 1);
      var last := rows[|rows| - 1];
      LastByValue(rows[..|rows| - 1], idx)[last[idx] := last]
  }

  /** The dictionary's keys are exactly the values of the column, each bound to the last row carrying it. */
  lemma LastByValueIsLast(rows: seq<Cells>, idx: nat)
    requires Reaches(rows, idx)
    ensures forall k :: k in LastByValue(rows, idx) <==> HasValue(rows, idx, k)
    ensures forall k :: k in LastByValue(rows, idx) ==>
      exists i :: LastWith(rows, idx, i, k) && rows[i] == LastByValue(rows, idx)[k]
  {
    LastByValueKeys(rows, idx);
    LastByValueRows(rows, idx);
  }

  lemma {:induction false} LastByValueKeys(rows: seq<Cells>, idx: nat)
    requires Reaches(rows, idx)
    ensures forall k :: k in LastByValue(rows, idx) <==> HasValue(rows, idx, k)
  {
    if |rows| > 0 {
      HasValueLast(rows, idx);
      LastByValueKeys(rows[..|rows| - 1], idx);
    }
  }

  lemma {:induction false} LastByValueRows(rows: seq<Cells>, idx: nat)
    requires Reaches(rows, idx)
    ensures forall k :: k in LastByValue(rows, idx) ==>
      exists i :: LastWith(rows, idx, i, k) && rows[i] == LastByValue(rows, idx)[k]
  {
    if |rows| > 0 {
      var n := |rows| - 1;
      var prefix := rows[..n];
      ReachesPrefix(rows, idx, n);
      LastByValueRows(prefix, idx);
      var m := LastByValue(rows, idx);
      forall k | k in m ensures exists i :: LastWith(rows, idx, i, k) && rows[i] == m[k] {
        if k == rows[n][idx] {
          assert LastWith(rows, idx, n, k);
        } else {
          assert k in LastByValue(prefix, idx) && m[k] == LastByValue(prefix, idx)[k];
          var i :| LastWith(prefix, idx, i, k) && prefix[i] == LastByValue(prefix, idx)[k];
          LastWithExtends(rows, idx, i, k);
        }
      }
    }
  }

  /** The last row with `k` among all but the final row stays the last when the final row lacks `k`. */
  lemma LastWithExtends(rows: seq<Cells>, idx: nat, i: int, k: string)
    requires Reaches(rows, idx) && |rows| > 0 && rows[|rows| - 1][idx] != k
    requires Reaches(rows[..|rows| - 1], idx) && LastWith(rows[..|rows| - 1], idx, i, k)
    ensures LastWith(rows, idx, i, k) && rows[i] == rows[..|rows| - 1][i]
  {
    var prefix := rows[..|rows| - 1];
    forall j | i < j < |rows| ensures rows[j][idx] != k {
      if j < |rows| - 1 {
        assert rows[j] == prefix[j];
      }
    }
  }

  /** One more row updates the as-written dictionary and its key order by that row alone. */
  lemma LastByValueSnoc(rows: seq<Cells>, row: Cells, idx: nat)
    requires Reaches(rows, idx) && idx < |row|
    ensures Reaches(rows + [row], idx)
    ensures LastByValue(rows + [row], idx) == LastByValue(rows, idx)[row[idx] := row]
    ensures FirstSeen(rows + [row], idx) ==
      if row[idx] in FirstSeen(rows, idx) then FirstSeen(rows, idx) else FirstSeen(rows, idx) + [row[idx]]
  {
    assert (rows + [row])[..|rows|] == rows;
  }

  /** The dictionary with each row wrapped in a one-element list, as `facet_by` holds it. */
  function Singletons(m: map<string, Cells>): (g: map<string, seq<Cells>>)
    ensures g.Keys == m.Keys
    ensures forall k :: k in g ==> g[k] == [m[k]]
  {
    map k | k in m :: [m[k]]
  }

  lemma SingletonsUpdate(m: map<string, Cells>, v: string, row: Cells)
    ensures Singletons(m[v := row]) == Singletons(m)[v := []][v := [] + [row]]
  {
    assert [] + [row] == [row];
  }

  /** One pass of the faceting loop keeps its dictionary and its key order in step with the rows read so far. */
  lemma FacetStep(rows: seq<Cells>, i: nat, idx: nat, groups: map<string, seq<Cells>>, seen: seq<string>)
    requires i < |rows| && idx < |rows[i]| && Reaches(rows[..i], idx)
    requires seen == FirstSeen(rows[..i], idx) && groups == Singletons(LastByValue(rows[..i], idx))
    ensures Reaches(rows[..i + 1], idx)
    ensures var v := rows[i][idx];
      && (if v in groups then seen else seen + [v]) == FirstSeen(rows[..i + 1], idx)
      && var emptied := groups[v := []];
      && emptied[v := emptied[v] + [rows[i]]] == Singletons(LastByValue(rows[..i + 1], idx))
  {
    assert rows[..i + 1] == rows[..i] + [rows[i]];
    LastByValueSnoc(rows[..i], rows[i], idx);
    SingletonsUpdate(LastByValue(rows[..i], idx), rows[i][idx], rows[i]);
    FirstSeenValues(rows[..i], idx);
    LastByValueIsLast(rows[..i], idx);
  }

  /** The dictionary and the list of first-seen values hold the same keys. */
  lemma SeenMatchesGroups(rows: seq<Cells>, idx: nat)
    requires Reaches(rows, idx)
    ensures forall k :: k in Singletons(LastByValue(rows, idx)) <==> k in FirstSeen(rows, idx)
  {
    FirstSeenValues(rows, idx);
    LastByValueIsLast(rows, idx);
  }

  /** The dictionary's keys in the order they were first met (the order of `dict.items()` is immaterial once sorted). */
  function FirstSeen(rows: seq<Cells>, idx: nat): seq<string>
    requires Reaches(rows, idx)
  {
    if |rows| == 0 then []
    else
      ReachesPrefix(rows, idx, |rows| - 1);
      var prev := FirstSeen(rows[..|rows| - 1], idx);
      var v := rows[|rows| - 1][idx];
      if v in prev then prev else prev + [v]
  }

  lemma FirstSeenValues(rows: seq<Cells>, idx: nat)
    requires Reaches(rows, idx)
    ensures Distinct(FirstSeen(rows, idx))
    ensures forall k :: k in FirstSeen(rows, idx) <==> HasValue(rows, idx, k)
  {
    FirstSeenDistinct(rows, idx);
    FirstSeenMembers(rows, idx);
  }

  lemma {:induction false} FirstSeenDistinct(rows: seq<Cells>, idx: nat)
    requires Reaches(rows, idx)
    ensures Distinct(FirstSeen(rows, idx))
  {
    if |rows| > 0 {
      var n := |rows| - 1;
      ReachesPrefix(rows, idx, n);
      FirstSeenDistinct(rows[..n], idx);
      var prev := FirstSeen(rows[..n], idx);
      if rows[n][idx] !in prev {
        DistinctSnoc(prev, rows[n][idx]);
      }
    }
  }

  lemma {:induction false} FirstSeenMembers(rows: seq<Cells>, idx: nat)
    requires Reaches(rows, idx)
    ensures forall k :: k in FirstSeen(rows, idx) <==> HasValue(rows, idx, k)
  {
    if |rows| > 0 {
      var n := |rows| - 1;
      HasValueLast(rows, idx);
      FirstSeenMembers(rows[..n], idx);
      var prev := FirstSeen(rows[..n], idx);
      assert FirstSeen(rows, idx) == if rows[n][idx] in prev then prev else prev + [rows[n][idx]];
    }
  }

  lemma DistinctSnoc<T>(s: seq<T>, x: T)
    requires Distinct(s) && x !in s
    ensures Distinct(s + [x])
  {
    forall i, j | 0 <= i < j < |s + [x]| ensures (s + [x])[i] != (s + [x])[j] {
      if j == |s| {
        assert (s + [x])[i] == s[i];
      }
    }
  }

  lemma {:induction false} DistinctCounts<T>(s: seq<T>)
    requires Distinct(s)
    ensures forall x :: multiset(s)[x] <= 1
  {
    if |s| > 0 {
      assert s == [s[0]] + s[1..];
      DistinctCounts(s[1..]);
      assert s[0] !in s[1..];
    }
  }

  lemma CountsDistinct<T>(s: seq<T>)
    requires forall x :: multiset(s)[x] <= 1
    ensures Distinct(s)
  {
    forall i, j | 0 <= i < j < |s| ensures s[i] != s[j] {
      assert s == s[..j] + s[j..];
      assert s[i] in s[..j];
      assert s[j] in s[j..];
      assert multiset(s)[s[j]] == multiset(s[..j])[s[j]] + multiset(s[j..])[s[j]];
    }
  }

  /** The facet labels in the order `facet_by` returns its tables: `tables.sort(key=faceted_on)`. */
  function FacetKeys(rows: seq<Cells>, idx: nat): seq<string>
    requires Reaches(rows, idx)
  {
    SortBy(FirstSeen(rows, idx), Identity)
  }

  /** The labels are the column's distinct values, each once, in strictly ascending order. */
  lemma FacetKeysAscending(rows: seq<Cells>, idx: nat)
    requires Reaches(rows, idx)
    ensures forall k :: k in FacetKeys(rows, idx) <==> HasValue(rows, idx, k)
    ensures forall i, j :: 0 <= i < j < |FacetKeys(rows, idx)| ==>
      StrLt(FacetKeys(rows, idx)[i], FacetKeys(rows, idx)[j])
  {
    var seen := FirstSeen(rows, idx);
    var keys := FacetKeys(rows, idx);
    FirstSeenValues(rows, idx);
    SortByPermutes(seen, Identity);
    SortBySorted(seen, Identity);
    forall k ensures k in keys <==> k in seen {
      assert k in keys <==> k in multiset(keys);
    }
    DistinctCounts(seen);
    CountsDistinct(keys);
  }

  /** Sorted by value, a run is the value repeated as often as it occurs. */
  lemma {:induction false} KeyRunIdentity(s: seq<string>, k: string)
    ensures KeyRun(s, Identity, k) == seq(multiset(s)[k], _ => k)
  {
    if |s| > 0 {
      KeyRunIdentity(s[1..], k);
      assert s == [s[0]] + s[1..];
      assert multiset(s)[k] == (if s[0] == k then 1 else 0) + multiset(s[1..])[k];
    }
  }

  /** Sorting strings by value gives the same list for every ordering of the same strings. */
  lemma SortByIdentityUnique(a: seq<string>, b: seq<string>)
    requires multiset(a) == multiset(b)
    ensures SortBy(a, Identity) == SortBy(b, Identity)
  {
    var sa, sb := SortBy(a, Identity), SortBy(b, Identity);
    SortBySorted(a, Identity);
    SortBySorted(b, Identity);
    SortByPermutes(a, Identity);
    SortByPermutes(b, Identity);
    forall k ensures KeyRun(sa, Identity, k) == KeyRun(sb, Identity, k) {
      KeyRunIdentity(sa, k);
      KeyRunIdentity(sb, k);
    }
    SortedRunsUnique(sa, sb, Identity);
  }

  /** Two lists without repeats that hold the same elements hold the same multiset. */
  lemma DistinctSameMultiset<T>(a: seq<T>, b: seq<T>)
    requires Distinct(a) && Distinct(b) && forall x :: x in a <==> x in b
    ensures multiset(a) == multiset(b)
  {
    DistinctCounts(a);
    DistinctCounts(b);
    forall x ensures multiset(a)[x] == multiset(b)[x] {
      assert x in multiset(a) <==> x in a;
      assert x in multiset(b) <==> x in b;
    }
  }

  /**
   * Whatever order the dictionary hands its keys out in, sorting them by label gives
   * `FacetKeys`: the facets come out as when built in first-seen order and sorted.
   */
  lemma FacetKeysAnyOrder(rows: seq<Cells>, idx: nat, order: seq<string>)
    requires Reaches(rows, idx)
    requires Distinct(order) && forall k :: k in order <==> k in LastByValue(rows, idx)
    ensures SortBy(order, Identity) == FacetKeys(rows, idx)
  {
    LastByValueIsLast(rows, idx);
    FirstSeenValues(rows, idx);
    DistinctSameMultiset(order, FirstSeen(rows, idx));
    SortByIdentityUnique(order, FirstSeen(rows, idx));
  }

  /** `facet_by` as evidently intended: every row with a non-empty value, appended to its value's group. */
  function Groups(rows: seq<Cells>, idx: nat): map<string, seq<Cells>>
    requires Reaches(rows, idx)
  {
    if |rows| == 0 then map[]
    else
      ReachesPrefix(rows, idx, |rows| - 1);
      var g := Groups(rows[..|rows| - 1], idx);
      var last := rows[|rows| - 1];
      var v := last[idx];
      if v == "" then g else g[v := (if v in g then g[v] else []) + [last]]
  }

  /**
   * The intended facets partition the rows whose value is non-empty: one group per distinct
   * non-empty value, holding every row with that value, in table order.
   */
  lemma GroupsAreRuns(rows: seq<Cells>, idx: nat)
    requires Reaches(rows, idx)
    ensures forall k :: k in Groups(rows, idx) <==> k != "" && HasValue(rows, idx, k)
    ensures forall k :: k in Groups(rows, idx) ==> Groups(rows, idx)[k] == KeyRun(rows, Key(idx), k)
  {
    GroupsKeys(rows, idx);
    GroupsRuns(rows, idx);
  }

  lemma {:induction false} GroupsKeys(rows: seq<Cells>, idx: nat)
    requires Reaches(rows, idx)
    ensures forall k :: k in Groups(rows, idx) <==> k != "" && HasValue(rows, idx, k)
  {
    if |rows| > 0 {
      HasValueLast(rows, idx);
      GroupsKeys(rows[..|rows| - 1], idx);
    }
  }

  lemma {:induction false} GroupsRuns(rows: seq<Cells>, idx: nat)
    requires Reaches(rows, idx)
    ensures forall k :: k in Groups(rows, idx) ==> Groups(rows, idx)[k] == KeyRun(rows, Key(idx), k)
  {
    if |rows| > 0 {
      var n := |rows| - 1;
      var prefix := rows[..n];
      var last := rows[n];
      ReachesPrefix(rows, idx, n);
      GroupsRuns(prefix, idx);
      GroupsKeys(prefix, idx);
      var g := Groups(prefix, idx);
      var v := last[idx];
      assert Key(idx)(last) == v;
      assert rows == prefix + [last];
      forall k | k in Groups(rows, idx) ensures Groups(rows, idx)[k] == KeyRun(rows, Key(idx), k) {
        KeyRunAppend(prefix, [last], Key(idx), k);
        assert KeyRun([last], Key(idx), k) == (if v == k then [last] else []) + KeyRun([], Key(idx), k);
        if k != v {
          assert Groups(rows, idx)[k] == g[k];
        } else if k in g {
          assert Groups(rows, idx)[k] == g[k] + [last];
        } else {
          assert Groups(rows, idx)[k] == [] + [last];
          KeyRunEmpty(prefix, idx, k);
        }
      }
    }
  }

  /** A value no row carries has an empty run. */
  lemma {:induction false} KeyRunEmpty(rows: seq<Cells>, idx: nat, k: string)
    requires Reaches(rows, idx) && !HasValue(rows, idx, k)
    ensures KeyRun(rows, Key(idx), k) == []
  {
    if |rows| > 0 {
      assert rows[0] in rows;
      forall i | 0 <= i < |rows[1..]| ensures rows[1..][i][idx] != k {
        assert rows[1..][i] == rows[i + 1];
      }
      KeyRunEmpty(rows[1..], idx, k);
    }
  }

  /** As written, two rows with one value leave a single one-row facet holding the later row. */
  lemma FacetKeepsOnlyLastRow()
    ensures LastByValue([["Joyce", "Modernism"], ["Beckett", "Modernism"]], 1)
      == map["Modernism" := ["Beckett", "Modernism"]]
    ensures Groups([["Joyce", "Modernism"], ["Beckett", "Modernism"]], 1)
      == map["Modernism" := [["Joyce", "Modernism"], ["Beckett", "Modernism"]]]
  {
    var rows: seq<Cells> := [["Joyce", "Modernism"], ["Beckett", "Modernism"]];
    var first: seq<Cells> := [["Joyce", "Modernism"]];
    assert rows[..1] == first;
    assert first[..0] == [];
    assert Groups(first[..0], 1) == map[];
    assert first[0][1] == "Modernism";
    assert Groups(first, 1) == Groups(first[..0], 1)["Modernism" := [] + [first[0]]];
    assert [] + [first[0]] == first;
    assert Groups(first, 1) == map["Modernism" := [["Joyce", "Modernism"]]];
    assert rows[1][1] == "Modernism";
    assert Groups(rows, 1) == Groups(first, 1)["Modernism" := first + [rows[1]]];
    assert first + [rows[1]] == rows;
  }

  /** As written, a row whose value is empty still makes a facet, labelled with the empty string. */
  lemma FacetKeepsEmptyValue()
    ensures LastByValue([["Joyce", ""]], 1) == map["" := ["Joyce", ""]]
    ensures Groups([["Joyce", ""]], 1) == map[]
  {
    var rows: seq<Cells> := [["Joyce", ""]];
    assert rows[..0] == [];
  }
}
