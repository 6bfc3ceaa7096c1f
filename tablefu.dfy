/**
 * The `TableFu` spreadsheet model: a table of string rows under a header row, with
 * the `Row` and `Datum` views it hands out.
 *
 * The constructor takes already-parsed rows by value. The Python code keeps the
 * caller's own list and pops the header off it, so there the caller's list changes too.
 */
module TableFu {
  import opened Outcomes
  import opened Strings
  import opened Sorting
  import opened Grid
  import opened Faceting

  /** Message of the errors raised for a column name the table does not have. */
  function NotAColumn(c: string): string { c + " isn't a column in this table" }

  /** Message of `ValueError` raised by `list.index`: `%r is not in list` of the missing element. */
  function NotInList(x: string): string { PyRepr(x) + " is not in list" }

  /** Message of `IndexError` raised by `list.pop(0)` on an empty list. */
  const PopFromEmpty: string := "pop from empty list"

  /**
   * The keyword-argument dictionary `**options`. The code reads and writes only its
   * `columns` entry; facets share the parent's dictionary by reference.
   */
  class Options {
    var columns: Option<seq<string>>

    constructor (columns: Option<seq<string>>)
      ensures this.columns == columns
    {
      this.columns := columns;
    }
  }

  /** The sum of `float(v)` over `vals`, or None when some value does not convert. */
  function SumOf(vals: seq<string>, parse: string -> Option<real>): (r: Option<real>)
    ensures r.Some? <==> forall v :: v in vals ==> parse(v).Some?
  {
    if |vals| == 0 then Some(0.0)
    else match (parse(vals[0]), SumOf(vals[1..], parse))
      case (Some(x), Some(rest)) => Some(x + rest)
      case _ => None
  }

  /** Reordering a column by sorting it changes neither its total nor whether it has one. */
  lemma SumOfSorted(vals: seq<string>, parse: string -> Option<real>)
    ensures SumOf(SortBy(vals, Identity), parse) == SumOf(vals, parse)
  {
    SortByPermutes(vals, Identity);
    SumOfPermutation(SortBy(vals, Identity), vals, parse);
  }

  /** Adding an optional summand: None as soon as either side is None. */
  function AddOpt(x: Option<real>, y: Option<real>): (r: Option<real>)
    ensures r.Some? <==> x.Some? && y.Some?
    ensures r.Some? ==> r.value == x.value + y.value
  {
    if x.Some? && y.Some? then Some(x.value + y.value) else None
  }

  /** Taking one value out of the list and adding it back in front leaves the sum as it was. */
  lemma {:induction false} SumOfRemove(vals: seq<string>, j: int, parse: string -> Option<real>)
    requires 0 <= j < |vals|
    ensures SumOf(vals, parse) == AddOpt(parse(vals[j]), SumOf(vals[..j] + vals[j + 1..], parse))
  {
    if j == 0 {
      assert vals[..0] + vals[1..] == vals[1..];
    } else {
      var tail := vals[1..];
      var rest := tail[..j - 1] + tail[j..];
      SumOfRemove(tail, j - 1, parse);
      assert vals[..j] + vals[j + 1..] == [vals[0]] + rest;
      assert ([vals[0]] + rest)[1..] == rest;
    }
  }

  /** Removing the same element from two permutations of each other leaves permutations. */
  lemma RemoveMatching<T>(a: seq<T>, b: seq<T>, j: int)
    requires multiset(a) == multiset(b) && |a| > 0 && 0 <= j < |b| && b[j] == a[0]
    ensures multiset(a[1..]) == multiset(b[..j] + b[j + 1..])
  {
    assert b == b[..j] + [b[j]] + b[j + 1..];
    assert a == [a[0]] + a[1..];
    calc {
      multiset(a[1..]);
      multiset(a) - multiset([a[0]]);
      multiset(b) - multiset([b[j]]);
      multiset(b[..j]) + multiset(b[j + 1..]);
      multiset(b[..j] + b[j + 1..]);
    }
  }

  /** `sum(float(v) for v in vals)` depends only on which values there are, not on their order. */
  lemma {:induction false} SumOfPermutation(a: seq<string>, b: seq<string>, parse: string -> Option<real>)
    requires multiset(a) == multiset(b)
    ensures SumOf(a, parse) == SumOf(b, parse)
    decreases |a|
  {
    if |a| == 0 {
      assert |multiset(b)| == 0;
    } else {
      assert a[0] in multiset(b);
      var j :| 0 <= j < |b| && b[j] == a[0];
      var rest := b[..j] + b[j + 1..];
      RemoveMatching(a, b, j);
      SumOfPermutation(a[1..], rest, parse);
      SumOfRemove(b, j, parse);
    }
  }

  /** A header row over a list of data rows, with an optional active column list. */
  class Table {
    /** The data rows, header removed. */
    var table: seq<Cells>
    /** The header row. */
    var defaultColumns: seq<string>
    /** `_columns`: the active column list when non-empty. */
    var columnsOverride: seq<string>
    var options: Options
    var deletedRows: seq<Cells>
    /** Never set after construction. */
    var facetedBy: Option<string>
    /** Set only on the tables `FacetBy` returns. */
    var facetedOn: Option<string>
    /** Never filled. */
    var totals: map<string, real>

    /** `TableFu(rows, columns=...)`: the first row is the header, the rest the data. */
    constructor (input: seq<Cells>, columns: Option<seq<string>>)
      requires |input| > 0
      ensures defaultColumns == input[0] && table == input[1..]
      ensures columnsOverride == (if columns.Some? then columns.value else [])
      ensures fresh(options) && options.columns == columns
      ensures deletedRows == [] && facetedBy == None && facetedOn == None && totals == map[]
    {
      table := input[1..];
      defaultColumns := input[0];
      columnsOverride := if columns.Some? then columns.value else [];
      deletedRows := [];
      facetedBy := None;
      facetedOn := None;
      totals := map[];
      options := new Options(columns);
    }

    /** `TableFu(rows)` including its failure: popping the header off an empty list raises. */
    static method FromRows(input: seq<Cells>, columns: Option<seq<string>>) returns (r: Result<Table>)
      ensures r.Err? <==> |input| == 0
      ensures r.Err? ==> r.error == IndexError(PopFromEmpty)
      ensures r.Ok? ==> fresh(r.value) && fresh(r.value.options)
      ensures r.Ok? ==> r.value.defaultColumns == input[0] && r.value.table == input[1..]
      ensures r.Ok? ==> r.value.Columns() == if columns.Some? && |columns.value| > 0 then columns.value else input[0]
      ensures r.Ok? ==> |r.value.Rows()| == |input| - 1
    {
      if |input| == 0 {
        return Err(IndexError(PopFromEmpty));
      }
      var t := new Table(input, columns);
      r := Ok(t);
    }

    /** The active column list: `_columns` when non-empty, else the header. */
    function Columns(): (cols: seq<string>)
      reads this
      ensures |columnsOverride| > 0 ==> cols == columnsOverride
      ensures |columnsOverride| == 0 ==> cols == defaultColumns
      ensures |cols| == 0 ==> |defaultColumns| == 0
    {
      if |columnsOverride| > 0 then columnsOverride else defaultColumns
    }

    /** `t.columns = cols`: stores the list both as `_columns` and as `options['columns']`. */
    method SetColumns(cols: seq<string>)
      modifies this`columnsOverride, options`columns
      ensures columnsOverride == cols && options.columns == Some(cols)
      ensures Columns() == if |cols| > 0 then cols else defaultColumns
    {
      columnsOverride := cols;
      options.columns := Some(cols);
    }

    /** `t[i]`: a view of row `i`. */
    function At(i: int): (row: Row)
      reads this
      requires 0 <= i < |table|
      ensures row.cells == table[i] && row.rowNum == i && row.table == this
    {
      Row(table[i], i, this)
    }

    /** `t.rows`: one view per data row, numbered from 0. */
    function Rows(): (rows: seq<Row>)
      reads this
      ensures |rows| == |table|
      ensures forall i :: 0 <= i < |rows| ==> rows[i] == Row(table[i], i, this)
    {
      seq(|table|, i requires 0 <= i < |table| reads this => Row(table[i], i, this))
    }

    /** `len(t)` as written: the length of `table[1:]`. */
    function Length(): (n: nat)
      reads this
      ensures |table| > 0 ==> n == |Rows()| - 1
      ensures |table| == 0 ==> n == 0
    {
      if |table| == 0 then 0 else |table| - 1
    }

    /** The number of data rows, which `len(t)` evidently meant to return. */
    function RowCount(): (n: nat)
      reads this
      ensures n == |Rows()|
      ensures |table| > 0 ==> n == Length() + 1
    {
      |table|
    }

    /** `t.add_rows(*rows)`: appends each row in turn. */
    method AddRows(rows: seq<Cells>)
      modifies this`table
      ensures table == old(table) + rows
      ensures table[..|old(table)|] == old(table)
    {
      var k := 0;
      while k < |rows|
        invariant 0 <= k <= |rows|
        invariant table == old(table) + rows[..k]
      {
        table := table + [rows[k]];
        k := k + 1;
        assert rows[..k] == rows[..k - 1] + [rows[k - 1]];
      }
      assert rows[..k] == rows;
    }

    /** `t.delete_row(i)`: moves row `i` to the end of `deletedRows`; later rows move up by one. */
    method DeleteRow(i: int)
      requires 0 <= i < |table|
      modifies this`table, this`deletedRows
      ensures deletedRows == old(deletedRows) + [old(table)[i]]
      ensures |table| == |old(table)| - 1
      ensures table[..i] == old(table)[..i]
      ensures forall j :: i <= j < |table| ==> table[j] == old(table)[j + 1]
    {
      deletedRows := deletedRows + [table[i]];
      table := table[..i] + table[i + 1..];
    }

    /** The position `list.index` gives a header name. */
    function HeaderIndex(c: string): (k: nat)
      reads this
      requires c in defaultColumns
      ensures FirstAt(defaultColumns, c, k)
    {
      IndexOf(defaultColumns, c).value
    }

    /**
     * `t.sort(c)`: a stable in-place sort of the rows by column `c` of the header, comparing
     * cells as strings. An unknown column raises `ValueError`; a row too short for the column
     * makes the key raise `IndexError`, and the list is left as it was.
     */
    method Sort(c: string) returns (r: Outcome)
      modifies this`table
      ensures c !in defaultColumns ==> r == Fail(ValueError(NotAColumn(c)))
      ensures r.Pass? <==> c in defaultColumns && Reaches(old(table), HeaderIndex(c))
      ensures r.Fail? ==> table == old(table)
      ensures c in defaultColumns && r.Fail? ==> r.error == IndexError(IndexOutOfRange)
      ensures r.Pass? ==> table == SortBy(old(table), Key(HeaderIndex(c)))
      ensures r.Pass? ==> multiset(table) == multiset(old(table))
      ensures r.Pass? ==> SortedBy(table, Key(HeaderIndex(c)))
      ensures r.Pass? ==> SameRuns(old(table), table, Key(HeaderIndex(c)))
      ensures r.Pass? ==> old(Values(c)).Ok? && Values(c) == Ok(SortBy(old(Values(c)).value, Identity))
    {
      if c !in defaultColumns {
        return Fail(ValueError(NotAColumn(c)));
      }
      var idx := IndexOf(defaultColumns, c).value;
      if !Reaches(table, idx) {
        return Fail(IndexError(IndexOutOfRange));
      }
      SortByPermutes(table, Key(idx));
      SortBySorted(table, Key(idx));
      SortByStable(table, Key(idx));
      ColumnOfSort(table, idx);
      table := SortBy(table, Key(idx));
      r := Pass;
    }

    /** `t.values(c)`: column `c` of the header, read down the rows. */
    function Values(c: string): (r: Result<seq<string>>)
      reads this
      ensures c !in defaultColumns ==> r == Err(ValueError(NotAColumn(c)))
      ensures r.Ok? ==> c in defaultColumns && |r.value| == |table|
      ensures r.Ok? ==> forall i :: 0 <= i < |table| ==>
        HeaderIndex(c) < |table[i]| && r.value[i] == table[i][HeaderIndex(c)]
      ensures c in defaultColumns && r.Err? ==>
        r.error == IndexError(IndexOutOfRange) &&
        exists i :: 0 <= i < |table| && |table[i]| <= HeaderIndex(c)
    {
      if c !in defaultColumns then Err(ValueError(NotAColumn(c)))
      else
        var idx := IndexOf(defaultColumns, c).value;
        if Reaches(table, idx) then Ok(Column(table, idx)) else Err(IndexError(IndexOutOfRange))
    }

    /**
     * `t.total(c)`: the sum of `float(v)` over the column. `parse` stands for `float`.
     * An unknown column and a non-numeric value both raise `ValueError`, with different messages.
     */
    function Total(c: string, parse: string -> Option<real>): (r: Result<real>)
      reads this
      ensures c !in defaultColumns ==> r == Err(ValueError(NotAColumn(c)))
      ensures c in defaultColumns && Values(c).Err? ==> r == Err(Values(c).error)
      ensures c in defaultColumns && Values(c).Ok? ==>
        (r.Err? <==> exists v :: v in Values(c).value && parse(v).None?)
      ensures r.Err? && c in defaultColumns && Values(c).Ok? ==>
        r.error == ValueError("Column " + c + " contains non-numeric values")
    {
      if c !in defaultColumns then Err(ValueError(NotAColumn(c)))
      else match Values(c)
        case Err(e) => Err(e)
        case Ok(vals) =>
          match SumOf(vals, parse)
            case None => Err(ValueError("Column " + c + " contains non-numeric values"))
            case Some(sum) => Ok(sum)
    }

    /** `row[c]` would fail on row `i`. */
    ghost predicate FacetFailsAt(c: string, i: int)
      reads this
    {
      0 <= i < |table| && At(i).Get(c).Err?
    }

    /** `f` is the facet for `value` holding `row`, sharing this table's header and options. */
    ghost predicate IsFacet(f: Table, value: string, row: Cells)
      reads this, f
    {
      && f.table == [row]
      && f.defaultColumns == defaultColumns
      && f.options == options
      && f.columnsOverride == []
      && f.deletedRows == []
      && f.facetedOn == Some(value)
      && f.facetedBy == None
      && f.totals == map[]
    }

    /**
     * `t.facet_by(c)` as written: one new table per distinct value `row[c]` takes, in ascending
     * order of the value. `row[c]` is looked up through `Row.Get`, so the position comes from the
     * active columns; every `Datum` is true, so no row is skipped; and each facet holds only the
     * last row carrying its value, because the group list is re-created on every hit.
     */
    method FacetBy(c: string) returns (r: Result<seq<Table>>)
      ensures |table| == 0 ==> r == Ok([])
      ensures r.Err? <==> exists i :: FacetFailsAt(c, i)
      ensures r.Err? ==> exists i :: FacetFailsAt(c, i) && r.error == At(i).Get(c).error
      ensures r.Ok? && |table| > 0 ==>
        && c in defaultColumns && c in Columns()
        && var idx := IndexOf(Columns(), c).value;
        && Reaches(table, idx)
        && |r.value| == |FacetKeys(table, idx)|
        && forall j :: 0 <= j < |r.value| ==>
             && fresh(r.value[j])
             && FacetKeys(table, idx)[j] in LastByValue(table, idx)
             && IsFacet(r.value[j], FacetKeys(table, idx)[j], LastByValue(table, idx)[FacetKeys(table, idx)[j]])
    {
      var failure, groups, seen := CollectFacets(c);
      if failure.Some? {
        return Err(failure.value);
      }
      if |table| == 0 {
        return Ok([]);
      }
      ghost var idx := IndexOf(Columns(), c).value;
      ghost var last := LastByValue(table, idx);
      var keys := SortBy(seen, Identity);
      SortByPermutes(seen, Identity);
      forall m | 0 <= m < |keys| ensures keys[m] in last && groups[keys[m]] == [last[keys[m]]] {
        assert keys[m] in multiset(keys);
      }
      var tables := BuildFacets(keys, groups);
      r := Ok(tables);
    }

    /**
     * The first loop of `facet_by`: looks up `row[c]` on every row and fills the dictionary,
     * returning it with its keys in insertion order, or the error of the first failing lookup.
     */
    method CollectFacets(c: string) returns (failure: Option<Error>, groups: map<string, seq<Cells>>, seen: seq<string>)
      ensures failure.Some? <==> exists i :: FacetFailsAt(c, i)
      ensures failure.Some? ==> exists i :: FacetFailsAt(c, i) && failure.value == At(i).Get(c).error
      ensures failure.None? && |table| > 0 ==>
        && c in defaultColumns && c in Columns()
        && var idx := IndexOf(Columns(), c).value;
        && Reaches(table, idx)
        && seen == FirstSeen(table, idx)
        && groups == Singletons(LastByValue(table, idx))
        && forall k :: k in groups <==> k in seen
    {
      ghost var idx := if c in Columns() then IndexOf(Columns(), c).value else 0;
      groups, seen := map[], [];
      var i := 0;
      while i < |table|
        invariant 0 <= i <= |table|
        invariant CollectedUpTo(c, i, idx, groups, seen)
      {
        var err;
        err, groups, seen := CollectRow(c, i, idx, groups, seen);
        if err.Some? {
          return err, groups, seen;
        }
        i := i + 1;
      }
      assert table[..i] == table;
      SeenMatchesGroups(table, idx);
      failure := None;
    }

    /**
     * The state of that loop after `i` rows: no lookup has failed yet, and the dictionary and its
     * key order are those of the first `i` rows.
     */
    ghost predicate CollectedUpTo(c: string, i: int, idx: nat, groups: map<string, seq<Cells>>, seen: seq<string>)
      reads this
      requires 0 <= i <= |table|
    {
      && idx == (if c in Columns() then IndexOf(Columns(), c).value else 0)
      && (forall j :: 0 <= j < i ==> !FacetFailsAt(c, j))
      && (i > 0 ==> c in defaultColumns && c in Columns())
      && Reaches(table[..i], idx)
      && seen == FirstSeen(table[..i], idx)
      && groups == Singletons(LastByValue(table[..i], idx))
    }

    /** One pass of that loop: looks up `row[c]` on row `i` and records the row under its value. */
    method CollectRow(c: string, i: int, ghost idx: nat, groups: map<string, seq<Cells>>, seen: seq<string>)
      returns (failure: Option<Error>, groups': map<string, seq<Cells>>, seen': seq<string>)
      requires 0 <= i < |table| && CollectedUpTo(c, i, idx, groups, seen)
      ensures failure.Some? ==> FacetFailsAt(c, i) && failure.value == At(i).Get(c).error
      ensures failure.None? ==> CollectedUpTo(c, i + 1, idx, groups', seen')
    {
      var row := At(i);  // `self.rows[i]`
      var d := row.Get(c);
      if d.Err? {
        return Some(d.error), groups, seen;
      }
      GetSucceeds(i, c);
      FacetStep(table, i, idx, groups, seen);
      failure, groups', seen' := None, groups, seen;
      if d.value.Truthy() {
        var v := d.value.value;
        assert v == table[i][idx] && row.cells == table[i];
        if v !in groups' {
          seen' := seen' + [v];
        }
        groups' := groups'[v := []];
        groups' := groups'[v := groups'[v] + [row.cells]];
      } else {
        assert false;  // every `Datum` is true
      }
    }

    /** The second loop of `facet_by`: one new table per key, in the order of `keys`. */
    method BuildFacets(keys: seq<string>, groups: map<string, seq<Cells>>) returns (tables: seq<Table>)
      requires forall m :: 0 <= m < |keys| ==> keys[m] in groups && |groups[keys[m]]| == 1
      ensures |tables| == |keys|
      ensures forall m :: 0 <= m < |keys| ==> fresh(tables[m])
      ensures forall m :: 0 <= m < |keys| ==> IsFacet(tables[m], keys[m], groups[keys[m]][0])
    {
      tables := [];
      var j := 0;
      while j < |keys|
        invariant 0 <= j <= |keys|
        invariant |tables| == j
        invariant forall m :: 0 <= m < j ==> fresh(tables[m])
        invariant forall m :: 0 <= m < j ==> IsFacet(tables[m], keys[m], groups[keys[m]][0])
      {
        var t := NewFacet(keys[j], groups[keys[j]]);
        tables := tables + [t];
        j := j + 1;
      }
    }

    /** A successful `row[c]` on row `i` reads the cell at the active position of `c`. */
    lemma GetSucceeds(i: int, c: string)
      requires 0 <= i < |table| && At(i).Get(c).Ok?
      ensures c in defaultColumns && c in Columns()
      ensures IndexOf(Columns(), c).value < |table[i]|
      ensures At(i).Get(c).value.value == table[i][IndexOf(Columns(), c).value]
    {
    }

    /** One facet: `TableFu([default_columns] + rows)`, then its label and the shared options. */
    method NewFacet(value: string, rows: seq<Cells>) returns (t: Table)
      requires |rows| == 1
      ensures fresh(t) && IsFacet(t, value, rows[0])
    {
      t := new Table([defaultColumns] + rows, None);
      t.facetedOn := Some(value);
      t.options := options;
      assert ([defaultColumns] + rows)[1..] == [rows[0]];
    }
  }

  /** A view of one data row: a copy of its cells, its position, and its table. */
  datatype Row = Row(cells: Cells, rowNum: int, table: Table) {

    /** `row == other`: rows are equal when their cells are, whatever their positions or tables. */
    predicate Equals(other: Row)
      ensures Equals(other) <==> cells == other.cells
      ensures Equals(other) ==> Length() == other.Length() && Repr() == other.Repr()
    {
      cells == other.cells
    }

    /** `len(row)`. */
    function Length(): (n: nat)
      ensures n == |cells|
      ensures n > 0 ==> |Repr()| >= 7 + |cells[0]| && Repr()[6..6 + |cells[0]|] == cells[0]
    {
      |cells|
    }

    /**
     * `row[c]` as written: `c` must be a header name, but its position is looked up in the
     * active column list and then used to index the cells, which are in header order.
     */
    function Get(c: string): (r: Result<Datum>)
      reads table
      ensures r == Err(KeyError(NotAColumn(c))) <==> c !in table.defaultColumns
      ensures c in table.defaultColumns && c !in table.Columns() ==> r == Err(ValueError(NotInList(c)))
      ensures r.Ok? ==> r.value.columnName == c && r.value.rowNum == rowNum && r.value.table == table
      ensures r.Ok? ==> exists k :: FirstAt(table.Columns(), c, k) && k < |cells| && r.value.value == cells[k]
      ensures r.Err? && c in table.Columns() ==>
        c !in table.defaultColumns || (r.error == IndexError(IndexOutOfRange) && |cells| <= IndexOf(table.Columns(), c).value)
    {
      if c !in table.defaultColumns then Err(KeyError(NotAColumn(c)))
      else match IndexOf(table.Columns(), c)
        case None => Err(ValueError(NotInList(c)))
        case Some(k) =>
          if k < |cells| then Ok(Datum(cells[k], rowNum, c, table)) else Err(IndexError(IndexOutOfRange))
    }

    /** `row[c]` as evidently intended: the header position of `c` indexes the cells. */
    function GetByHeader(c: string): (r: Result<Datum>)
      reads table
      ensures r == Err(KeyError(NotAColumn(c))) <==> c !in table.defaultColumns
      ensures r.Ok? ==> r.value.columnName == c && r.value.rowNum == rowNum && r.value.table == table
      ensures r.Ok? ==> exists k :: FirstAt(table.defaultColumns, c, k) && k < |cells| && r.value.value == cells[k]
    {
      if c !in table.defaultColumns then Err(KeyError(NotAColumn(c)))
      else
        var k := IndexOf(table.defaultColumns, c).value;
        if k < |cells| then Ok(Datum(cells[k], rowNum, c, table)) else Err(IndexError(IndexOutOfRange))
    }

    /** `repr(row)`: `<Row: ` then the cells joined by `, `, then `>`. */
    function Repr(): (s: string)
      ensures |cells| == 0 ==> s == "<Row: >"
      ensures |cells| == 1 ==> s == "<Row: " + cells[0] + ">"
      ensures |s| >= 7 && s[..6] == "<Row: " && s[|s| - 1] == '>'
    {
      "<Row: " + Join(", ", cells) + ">"
    }
  }

  /** One cell, with the row number and column name it was read under. */
  datatype Datum = Datum(value: string, rowNum: int, columnName: string, table: Table) {

    /** `str(datum)`: the raw value. */
    function ToString(): (s: string)
      ensures s == value
      ensures Repr()[|columnName| + 3..|Repr()| - 1] == s
    {
      value
    }

    /** `repr(datum)`: the column name and the value inside angle brackets. */
    function Repr(): (s: string)
      ensures |s| == |columnName| + |value| + 4
      ensures s[0] == '<' && s[1..|columnName| + 1] == columnName && s[|s| - 1] == '>'
      ensures s[|columnName| + 1..|columnName| + 3] == ": "
      ensures s[|columnName| + 3..|s| - 1] == value
    {
      "<" + columnName + ": " + value + ">"
    }

    /** `Datum` defines neither `__nonzero__` nor `__len__`, so Python counts every instance as true. */
    predicate Truthy() {
      true
    }
  }

  /** `t[i] == t.rows[i]`, and `len(t.rows)` is the number of data rows. */
  lemma RowsAgree(t: Table, i: int)
    requires 0 <= i < |t.table|
    ensures t.At(i).Equals(t.Rows()[i]) && t.At(i).cells == t.table[i]
    ensures |t.Rows()| == t.RowCount() == |t.table|
    ensures t.At(i).Length() == |t.table[i]|
  {
  }

  /** `len(t)` as written is one less than the number of rows whenever there is a row. */
  lemma LengthOffByOne(t: Table)
    requires |t.table| > 0
    ensures t.Length() == |t.Rows()| - 1 < t.RowCount()
  {
  }

  /**
   * Without an active column list, reading any header column of row `i` gives a `Datum` named
   * after the column, numbered `i`, whose string is the cell `values` reports for that row.
   */
  lemma RowLookupMatchesValues(t: Table, i: int, c: string)
    requires 0 <= i < |t.table| && t.columnsOverride == []
    requires t.Values(c).Ok?
    ensures t.At(i).Get(c) == Ok(Datum(t.Values(c).value[i], i, c, t))
    ensures t.At(i).Get(c).value.ToString() == t.table[i][t.HeaderIndex(c)]
  {
    assert t.table[i] in t.table;
  }

  /** The intended lookup agrees with `values` whatever the active column list is. */
  lemma HeaderLookupMatchesValues(t: Table, i: int, c: string)
    requires 0 <= i < |t.table| && t.Values(c).Ok?
    ensures t.At(i).GetByHeader(c) == Ok(Datum(t.Values(c).value[i], i, c, t))
  {
    assert t.table[i] in t.table;
  }

  /** With `columns = ['Style', 'Author']`, `row['Author']` returns the second cell, the book title. */
  lemma GetUsesActivePosition(t: Table)
    requires t.defaultColumns == ["Author", "Best Book", "Number of Pages", "Style"]
    requires t.columnsOverride == ["Style", "Author"]
    ensures Row(["Samuel Beckett", "Malone Muert", "120", "Modernism"], 0, t).Get("Author")
      == Ok(Datum("Malone Muert", 0, "Author", t))
    ensures Row(["Samuel Beckett", "Malone Muert", "120", "Modernism"], 0, t).GetByHeader("Author")
      == Ok(Datum("Samuel Beckett", 0, "Author", t))
  {
    var cols: seq<string> := ["Style", "Author"];
    assert cols[0] != "Author";
    assert IndexOf(cols, "Author") == Some(1);
  }

  /** Sorting a table by any column leaves the total of every column as it was. */
  lemma TotalAfterSort(rows: seq<Cells>, sidx: nat, tidx: nat, parse: string -> Option<real>)
    requires Reaches(rows, tidx)
    ensures Reaches(SortBy(rows, Key(sidx)), tidx)
    ensures SumOf(Column(SortBy(rows, Key(sidx)), tidx), parse) == SumOf(Column(rows, tidx), parse)
  {
    ColumnOfSortPermutes(rows, sidx, tidx);
    SumOfPermutation(Column(SortBy(rows, Key(sidx)), tidx), Column(rows, tidx), parse);
  }

  /** `repr(row)` of several cells is `repr` of all but the last with `, ` and the last cell before the `>`. */
  lemma RowReprSnoc(r: Row)
    requires |r.cells| > 1
    ensures var init := Row(r.cells[..|r.cells| - 1], r.rowNum, r.table).Repr();
      r.Repr() == init[..|init| - 1] + ", " + r.cells[|r.cells| - 1] + ">"
  {
    var n := |r.cells| - 1;
    var last := r.cells[n];
    JoinAppend(", ", r.cells[..n], [last]);
    assert r.cells[..n] + [last] == r.cells;
    assert Join(", ", [last]) == last;
    var init := Row(r.cells[..n], r.rowNum, r.table).Repr();
    assert init[..|init| - 1] == "<Row: " + Join(", ", r.cells[..n]);
  }

}
