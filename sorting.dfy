/**
 * Python's stable `list.sort(key=...)` on string keys, as an insertion sort, with the
 * properties the language promises of it: the result is ordered by key, every run of
 * equal keys keeps its relative order, and these two facts determine the result.
 */
module Sorting {
  import opened Strings

  /** Every element's key is at most the key of every later element. */
  ghost predicate SortedBy<T>(s: seq<T>, key: T -> string) {
    forall i, j :: 0 <= i < j < |s| ==> StrLe(key(s[i]), key(s[j]))
  }

  /** The subsequence of `s` whose key is `k`, in the order of `s`. */
  function KeyRun<T>(s: seq<T>, key: T -> string, k: string): seq<T> {
    if |s| == 0 then []
    else (if key(s[0]) == k then [s[0]] else []) + KeyRun(s[1..], key, k)
  }

  /** `b` keeps the relative order of each run of equal keys of `a`. */
  ghost predicate SameRuns<T>(a: seq<T>, b: seq<T>, key: T -> string) {
    forall k :: KeyRun(a, key, k) == KeyRun(b, key, k)
  }

  /** Places `x` in front of the first element whose key is not smaller than its own. */
  function InsertBy<T>(x: T, s: seq<T>, key: T -> string): seq<T> {
    if |s| == 0 then [x]
    else if StrLe(key(x), key(s[0])) then [x] + s
    else [s[0]] + InsertBy(x, s[1..], key)
  }

  /** Stable sort by key. */
  function SortBy<T>(s: seq<T>, key: T -> string): seq<T> {
    if |s| == 0 then [] else InsertBy(s[0], SortBy(s[1..], key), key)
  }

  lemma {:induction false} KeyRunAppend<T>(a: seq<T>, b: seq<T>, key: T -> string, k: string)
    ensures KeyRun(a + b, key, k) == KeyRun(a, key, k) + KeyRun(b, key, k)
  {
    if |a| == 0 {
      assert a + b == b;
    } else {
      var head := if key(a[0]) == k then [a[0]] else [];
      assert (a + b)[0] == a[0];
      assert (a + b)[1..] == a[1..] + b;
      KeyRunAppend(a[1..], b, key, k);
      assert KeyRun(a + b, key, k) == head + (KeyRun(a[1..], key, k) + KeyRun(b, key, k));
      assert KeyRun(a, key, k) == head + KeyRun(a[1..], key, k);
    }
  }

  /** A run holds exactly the elements of `s` with that key, each as often as in `s`. */
  lemma {:induction false} KeyRunMembers<T>(s: seq<T>, key: T -> string, k: string)
    ensures forall x :: x in KeyRun(s, key, k) ==> x in s && key(x) == k
    ensures forall i :: 0 <= i < |s| && key(s[i]) == k ==> s[i] in KeyRun(s, key, k)
  {
    if |s| > 0 {
      KeyRunMembers(s[1..], key, k);
      forall i | 0 < i < |s| && key(s[i]) == k
        ensures s[i] in KeyRun(s, key, k)
      {
        assert s[1..][i - 1] == s[i];
      }
    }
  }

  lemma {:induction false} InsertByPermutes<T>(x: T, s: seq<T>, key: T -> string)
    ensures multiset(InsertBy(x, s, key)) == multiset([x]) + multiset(s)
  {
    if |s| > 0 && !StrLe(key(x), key(s[0])) {
      InsertByPermutes(x, s[1..], key);
      assert s == [s[0]] + s[1..];
    }
  }

  lemma {:induction false} InsertByKeyRun<T>(x: T, s: seq<T>, key: T -> string, k: string)
    ensures KeyRun(InsertBy(x, s, key), key, k) == (if key(x) == k then [x] else []) + KeyRun(s, key, k)
  {
    var hx := if key(x) == k then [x] else [];
    assert KeyRun([x], key, k) == hx + KeyRun([x][1..], key, k);
    if |s| == 0 {
    } else if StrLe(key(x), key(s[0])) {
      KeyRunAppend([x], s, key, k);
    } else {
      var h0 := if key(s[0]) == k then [s[0]] else [];
      StrLeReflexive(key(x));
      assert hx == [] || h0 == [];
      InsertByKeyRun(x, s[1..], key, k);
      KeyRunAppend([s[0]], InsertBy(x, s[1..], key), key, k);
      assert KeyRun([s[0]], key, k) == h0 + KeyRun([s[0]][1..], key, k);
      assert KeyRun(s, key, k) == h0 + KeyRun(s[1..], key, k);
      assert KeyRun(InsertBy(x, s, key), key, k) == h0 + (hx + KeyRun(s[1..], key, k));
    }
  }

  lemma {:induction false} InsertBySorted<T>(x: T, s: seq<T>, key: T -> string)
    requires SortedBy(s, key)
    ensures SortedBy(InsertBy(x, s, key), key)
  {
    if |s| == 0 {
    } else if StrLe(key(x), key(s[0])) {
      var r := [x] + s;
      forall i, j | 0 <= i < j < |r| ensures StrLe(key(r[i]), key(r[j])) {
        if i == 0 && j > 1 {
          StrLeTransitive(key(x), key(s[0]), key(s[j - 1]));
        }
      }
    } else {
      StrLeTotal(key(x), key(s[0]));
      InsertBySorted(x, s[1..], key);
      var t := InsertBy(x, s[1..], key);
      InsertByPermutes(x, s[1..], key);
      forall j | 0 <= j < |t| ensures StrLe(key(s[0]), key(t[j])) {
        assert t[j] in multiset(t);
        if t[j] != x {
          assert t[j] in s[1..];
          var m :| 0 <= m < |s[1..]| && s[1..][m] == t[j];
          assert s[m + 1] == t[j];
        }
      }
    }
  }

  /** The sort orders its input by key. */
  lemma {:induction false} SortBySorted<T>(s: seq<T>, key: T -> string)
    ensures SortedBy(SortBy(s, key), key)
  {
    if |s| > 0 {
      SortBySorted(s[1..], key);
      InsertBySorted(s[0], SortBy(s[1..], key), key);
    }
  }

  /** The sort rearranges its input and neither adds nor drops an element. */
  lemma {:induction false} SortByPermutes<T>(s: seq<T>, key: T -> string)
    ensures multiset(SortBy(s, key)) == multiset(s)
  {
    if |s| > 0 {
      SortByPermutes(s[1..], key);
      InsertByPermutes(s[0], SortBy(s[1..], key), key);
      assert s == [s[0]] + s[1..];
    }
  }

  /** The sort is stable: elements with equal keys keep their relative order. */
  lemma {:induction false} SortByStable<T>(s: seq<T>, key: T -> string)
    ensures SameRuns(s, SortBy(s, key), key)
  {
    if |s| > 0 {
      SortByStable(s[1..], key);
      forall k ensures KeyRun(s, key, k) == KeyRun(SortBy(s, key), key, k) {
        InsertByKeyRun(s[0], SortBy(s[1..], key), key, k);
      }
    }
  }

  /**
   * Being ordered by key and keeping the runs of equal keys determine a sequence:
   * any two such rearrangements of the same runs are equal.
   */
  lemma {:induction false} SortedRunsUnique<T>(a: seq<T>, b: seq<T>, key: T -> string)
    requires SortedBy(a, key) && SortedBy(b, key) && SameRuns(a, b, key)
    ensures a == b
  {
    if |a| == 0 {
      if |b| > 0 {
        KeyRunMembers(b, key, key(b[0]));
        assert false;
      }
    } else {
      SortedSameHead(a, b, key);
      SameRunsTail(a, b, key);
      SortedRunsUnique(a[1..], b[1..], key);
      assert a == [a[0]] + a[1..] && b == [b[0]] + b[1..];
    }
  }

  /** Two sorted sequences with the same runs start with the same element. */
  lemma SortedSameHead<T>(a: seq<T>, b: seq<T>, key: T -> string)
    requires SortedBy(a, key) && SortedBy(b, key) && SameRuns(a, b, key) && |a| > 0
    ensures |b| > 0 && a[0] == b[0]
  {
    var ka := key(a[0]);
    assert KeyRun(a, key, ka) == [a[0]] + KeyRun(a[1..], key, ka);
    assert KeyRun(b, key, ka) == KeyRun(a, key, ka);
    assert |b| > 0;
    var kb := key(b[0]);
    assert KeyRun(b, key, kb) == [b[0]] + KeyRun(b[1..], key, kb);
    assert KeyRun(a, key, kb) == KeyRun(b, key, kb);
    KeyRunMembers(a, key, kb);
    KeyRunMembers(b, key, ka);
    assert b[0] in KeyRun(a, key, kb);
    var ia :| 0 <= ia < |a| && a[ia] == b[0];
    assert StrLe(ka, kb) by {
      if ia == 0 {
        StrLeReflexive(ka);
      }
    }
    assert a[0] in KeyRun(b, key, ka);
    var ib :| 0 <= ib < |b| && b[ib] == a[0];
    assert StrLe(kb, ka) by {
      if ib == 0 {
        StrLeReflexive(kb);
      }
    }
    StrLeAntisymmetric(ka, kb);
    assert a[0] == KeyRun(a, key, ka)[0] == KeyRun(b, key, kb)[0] == b[0];
  }

  /** Dropping a common first element keeps the runs equal. */
  lemma SameRunsTail<T>(a: seq<T>, b: seq<T>, key: T -> string)
    requires SameRuns(a, b, key) && |a| > 0 && |b| > 0 && a[0] == b[0]
    ensures SameRuns(a[1..], b[1..], key)
  {
    forall k ensures KeyRun(a[1..], key, k) == KeyRun(b[1..], key, k) {
      var head := if key(a[0]) == k then [a[0]] else [];
      assert KeyRun(a, key, k) == head + KeyRun(a[1..], key, k);
      assert KeyRun(b, key, k) == head + KeyRun(b[1..], key, k);
      assert KeyRun(a[1..], key, k) == KeyRun(a, key, k)[|head|..];
      assert KeyRun(b[1..], key, k) == KeyRun(b, key, k)[|head|..];
    }
  }
}
