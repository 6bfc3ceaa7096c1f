/** Rows of string cells and the column access `row[index]` that the table operations share. */
module Grid {
  import opened Strings
  import opened Sorting

  /** One row of the table: its cells in header order. */
  type Cells = seq<string>

  /** Every row has a cell at `idx`, so `row[idx]` raises for none of them. */
  predicate Reaches(rows: seq<Cells>, idx: nat) {
    forall row :: row in rows ==> idx < |row|
  }

  /** The sort key `lambda row: row[idx]`; the empty fallback is never used on rows that `Reaches` covers. */
  function Key(idx: nat): Cells -> string {
    (row: Cells) => if idx < |row| then row[idx] else ""
  }

  /** The key of a list of strings sorted as they are. */
  function Identity(s: string): string { s }

  /** `[row[idx] for row in rows]` */
  function Column(rows: seq<Cells>, idx: nat): (col: seq<string>)
    requires Reaches(rows, idx)
    ensures |col| == |rows|
    ensures forall i :: 0 <= i < |rows| ==> col[i] == rows[i][idx]
  {
    if |rows| == 0 then [] else [rows[0][idx]] + Column(rows[1..], idx)
  }

  lemma {:induction false} ReachesPermutation(a: seq<Cells>, b: seq<Cells>, idx: nat)
    requires multiset(a) == multiset(b) && Reaches(a, idx)
    ensures Reaches(b, idx)
  {
    forall row | row in b ensures idx < |row| {
      assert row in multiset(b);
    }
  }

  lemma {:induction false} ColumnOfInsert(x: Cells, rows: seq<Cells>, idx: nat)
    requires idx < |x| && Reaches(rows, idx)
    ensures Reaches(InsertBy(x, rows, Key(idx)), idx)
    ensures Column(InsertBy(x, rows, Key(idx)), idx) == InsertBy(x[idx], Column(rows, idx), Identity)
  {
    InsertByPermutes(x, rows, Key(idx));
    ReachesPermutation([x] + rows, InsertBy(x, rows, Key(idx)), idx);
    if |rows| > 0 && !StrLe(x[idx], rows[0][idx]) {
      ColumnOfInsert(x, rows[1..], idx);
      assert Column(rows, idx)[1..] == Column(rows[1..], idx);
    }
  }

  /**
   * Sorting the rows by a column and then reading that column gives the column's values
   * sorted as strings: the values are ordered, and equal values keep their row order.
   */
  lemma {:induction false} ColumnOfSort(rows: seq<Cells>, idx: nat)
    requires Reaches(rows, idx)
    ensures Reaches(SortBy(rows, Key(idx)), idx)
    ensures Column(SortBy(rows, Key(idx)), idx) == SortBy(Column(rows, idx), Identity)
  {
    if |rows| > 0 {
      ColumnOfSort(rows[1..], idx);
      ColumnOfInsert(rows[0], SortBy(rows[1..], Key(idx)), idx);
      assert Column(rows, idx)[1..] == Column(rows[1..], idx);
    }
  }

  /** Inserting a row by one column adds that row's cell to any other column, as a multiset. */
  lemma {:induction false} ColumnOfInsertPermutes(x: Cells, rows: seq<Cells>, sidx: nat, tidx: nat)
    requires tidx < |x| && Reaches(rows, tidx)
    ensures Reaches(InsertBy(x, rows, Key(sidx)), tidx)
    ensures multiset(Column(InsertBy(x, rows, Key(sidx)), tidx)) == multiset([x[tidx]]) + multiset(Column(rows, tidx))
  {
    InsertByReaches(x, rows, sidx, tidx);
    var ins := InsertBy(x, rows, Key(sidx));
    if |rows| == 0 {
    } else if StrLe(Key(sidx)(x), Key(sidx)(rows[0])) {
      assert ins == [x] + rows;
      assert ins[1..] == rows;
    } else {
      var rest := InsertBy(x, rows[1..], Key(sidx));
      assert ins == [rows[0]] + rest;
      ColumnOfInsertPermutes(x, rows[1..], sidx, tidx);
      assert ins[1..] == rest;
      var head := multiset([rows[0][tidx]]);
      assert multiset(Column(ins, tidx)) == head + multiset(Column(rest, tidx));
      assert multiset(Column(rows, tidx)) == head + multiset(Column(rows[1..], tidx));
    }
  }

  lemma InsertByReaches(x: Cells, rows: seq<Cells>, sidx: nat, tidx: nat)
    requires tidx < |x| && Reaches(rows, tidx)
    ensures Reaches(InsertBy(x, rows, Key(sidx)), tidx)
  {
    InsertByPermutes(x, rows, Key(sidx));
    assert Reaches([x] + rows, tidx);
    ReachesPermutation([x] + rows, InsertBy(x, rows, Key(sidx)), tidx);
  }

  /** Sorting the rows by one column reorders every other column, as a multiset. */
  lemma {:induction false} ColumnOfSortPermutes(rows: seq<Cells>, sidx: nat, tidx: nat)
    requires Reaches(rows, tidx)
    ensures Reaches(SortBy(rows, Key(sidx)), tidx)
    ensures multiset(Column(SortBy(rows, Key(sidx)), tidx)) == multiset(Column(rows, tidx))
  {
    if |rows| > 0 {
      ColumnOfSortPermutes(rows[1..], sidx, tidx);
      ColumnOfInsertPermutes(rows[0], SortBy(rows[1..], Key(sidx)), sidx, tidx);
      assert Column(rows, tidx) == [rows[0][tidx]] + Column(rows[1..], tidx);
    }
  }
}
