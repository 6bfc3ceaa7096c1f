# python-tablefu in Dafny

A model of TableFu, a Python library that handles a spreadsheet-like table. The model has two parts.

**The table (`table_fu/__init__.py`).**
- `TableFu` takes a list of rows and pops the first row off as the header (`default_columns`).
- It keeps the remaining rows in `table` and an optional active column list (`_columns`, the `columns` option).
- It offers row access (`t[i]`, `t.rows`, `len(t)`), `add_rows`, `delete_row`, a stable `sort` by a header column, `values`, `total` and `facet_by`.
- `facet_by` splits the table into one new table per value of a column.
- `Row` is a view of one row's cells, looked up by column name.
- `Datum` is one cell together with its row number and column name.

**The formatter registry (`table_fu/formatters.py`).**
- `Formatter` keeps a dictionary from names to formatting callables, seeded from `DEFAULT_FORMATTERS`.
- It offers `register`, `unregister` and a call that takes either a callable or a registered name.

**Modules.**
- `Outcomes`: Python's exceptions become error values (`KeyError`, `ValueError`, `IndexError`, `AttributeError`, each with its message), returned in `Result` and `Outcome`.
- `Strings`: Python's string order (`StrLe`), `list.index` (`IndexOf`), `str.join` (`Join`) and Python 2's `repr` of a string (`PyRepr`), which `list.index` uses in its error message.
- `Sorting`: Python's stable `list.sort(key=...)` as an insertion sort, `SortBy`. It is proved ordered, stable and a permutation, and proved to be the only sequence with those properties.
- `Grid`: rows as `seq<string>`, plus reading one column down the rows.
- `Faceting`: pure definitions of what `facet_by` builds.
  - As written: `LastByValue`, `FirstSeen`, `FacetKeys`.
  - As evidently intended: `Groups`.
- `TableFu`:
  - the classes `Table` and `Options`, whose methods update their fields in place;
  - the value types `Row` and `Datum`.
- `Formatters`:
  - the class `Formatter`, whose `Register` and `Unregister` update its `filters` map in place;
  - the pure registry functions that specify it.

**Rows of different lengths.** Rows may have different lengths, as in the source. Every `row[index]` that can fall off the end of a short row is modelled as an `IndexError` result.

**Caller-supplied operations.** Two things the table and the registry receive from outside are parameters:
- `float` (in `total`) is `parse: string -> Option<real>`;
- each formatting callable is a `Callable` holding its `__name__` (or None for a callable that has none) and a total function from a value and its positional arguments to a string.

## Model

| member | source | states |
|---|---|---|
| Strings.StrLeReflexive | table_fu/__init__.py:94 | every string is `<=` itself under Python's string order |
| Strings.StrLeTotal | table_fu/__init__.py:94 | any two strings are comparable, so the sort key order is total |
| Strings.StrLeAntisymmetric | table_fu/__init__.py:94 | two strings each `<=` the other are equal |
| Strings.StrLeTransitive | table_fu/__init__.py:94 | the string order is transitive |
| Strings.IndexOf | table_fu/__init__.py:93 | `list.index`: None exactly when the element is absent, otherwise the position of its first occurrence |
| Strings.JoinAppend | table_fu/__init__.py:166 | joining two non-empty lists puts exactly one separator between their joins |
| Strings.ReprQuote | table_fu/__init__.py:162 | `repr` quotes a string with `"` exactly when it holds `'` and no `"`, otherwise with `'` |
| Strings.EscapeChar | table_fu/__init__.py:162 | inside the quotes a character is written as itself exactly when it is printable ASCII and neither the quote nor a backslash |
| Strings.PyRepr | table_fu/__init__.py:162 | `repr(s)` begins and ends with the chosen quote and is at least two longer than `s` |
| Strings.PlainRepr | table_fu/__init__.py:162 | a printable name without `'` or backslash is shown as itself in `'` quotes |
| Strings.ApostropheRepr | table_fu/__init__.py:162 | a printable name holding `'` but no `"` or backslash, such as `Author's`, is shown as itself in `"` quotes |
| Strings.ReprRoundTrip | table_fu/__init__.py:162 | for a byte string, reading back the escapes between the quotes of `repr(s)` gives `s` |
| Sorting.SortBySorted | table_fu/__init__.py:94 | `list.sort(key=...)` leaves the list ordered by key |
| Sorting.SortByPermutes | table_fu/__init__.py:94 | the sort is a permutation (same multiset) |
| Sorting.SortByStable | table_fu/__init__.py:94 | the sort is stable: for every key, the elements with that key keep their relative order |
| Sorting.SortedRunsUnique | table_fu/__init__.py:94 | ordered and stable together determine the result, so any stable sort gives the same list as `SortBy` |
| Grid.Column | table_fu/__init__.py:100 | `[row[index] for row in table]`: one entry per row, entry `i` is cell `index` of row `i` |
| Grid.ColumnOfSort | table_fu/__init__.py:90-100 | after sorting by a column, `values` of that column is the old column sorted as strings |
| Faceting.LastByValueIsLast | table_fu/__init__.py:118-122 | the dictionary `facet_by` builds has exactly the column's values as keys, each bound to the last row that carries it |
| Faceting.FirstSeenValues | table_fu/__init__.py:118-126 | the dictionary's keys, in insertion order, are distinct and are exactly the column's values |
| Faceting.FacetStep | table_fu/__init__.py:119-122 | one loop pass extends the key order and the dictionary exactly as one more row does |
| Faceting.SeenMatchesGroups | table_fu/__init__.py:118-126 | the dictionary and the insertion-ordered key list hold the same keys |
| Faceting.FacetKeysAscending | table_fu/__init__.py:126-133 | the facet labels are the column's distinct values, each once, in strictly ascending string order |
| Faceting.SortByIdentityUnique | table_fu/__init__.py:133 | sorting strings by value gives the same list whatever order the same strings come in |
| Faceting.FacetKeysAnyOrder | table_fu/__init__.py:125-133 | whatever order the dictionary yields its keys in, sorting them gives the facet labels `FacetKeys` |
| Faceting.GroupsAreRuns | table_fu/__init__.py:113-122 | intended grouping: one group per distinct non-empty value, holding every row with that value in table order |
| Faceting.FacetKeepsOnlyLastRow | table_fu/__init__.py:121-122 | two rows sharing a value leave, as written, one facet holding only the later row; intended, both rows |
| Faceting.FacetKeepsEmptyValue | table_fu/__init__.py:120 | a row with an empty value still makes a facet (labelled `""`) as written; intended, it is skipped |
| TableFu.SumOf | table_fu/__init__.py:106-111 | the sum exists exactly when every value converts with `float` |
| TableFu.SumOfSorted | table_fu/__init__.py:102-111 | sorting a column's values changes neither whether it has a total nor the total |
| TableFu.Options.constructor | table_fu/__init__.py:39-57 | the options dictionary records the `columns` keyword argument |
| TableFu.Table.constructor | table_fu/__init__.py:39-57 | the first row becomes the header and the rest the data; `_columns` is the `columns` option or `[]`; deleted rows, totals and the faceting fields start empty |
| TableFu.Table.FromRows | table_fu/__init__.py:39-57 | construction fails with `IndexError('pop from empty list')` exactly when there is no row; otherwise the columns are the option when non-empty, else the header, and there is one row view per data row |
| TableFu.Table.SetColumns | table_fu/__init__.py:76-84 | setting `columns` writes both `_columns` and `options['columns']`; the active columns become the list if non-empty, else the header |
| TableFu.Table.Columns | table_fu/__init__.py:76-79 | `t.columns` is `_columns` when non-empty, else the header, so it is empty only when the header is |
| TableFu.Table.Length | table_fu/__init__.py:65-66 | `len(t)` as written: one less than the number of row views when there are rows, else 0 |
| TableFu.Table.At | table_fu/__init__.py:59-63 | `t[i]` is a view of this table holding row `i`'s cells, numbered `i` |
| TableFu.Table.Rows | table_fu/__init__.py:72-74 | `t.rows` has one view per data row, view `i` holding row `i` numbered `i` |
| TableFu.Table.RowCount | table_fu/__init__.py:65-66 | the number of row views, which is one more than `len(t)` as written whenever there are rows |
| TableFu.Table.AddRows | table_fu/__init__.py:68-70 | the rows are appended in order and the existing rows are untouched |
| TableFu.Table.DeleteRow | table_fu/__init__.py:86-88 | row `i` is appended to `deleted_rows` and removed; earlier rows stay put and later rows move up one |
| TableFu.Table.HeaderIndex | table_fu/__init__.py:93 | the position of the first occurrence of the column in the header |
| TableFu.Table.Sort | table_fu/__init__.py:90-94 | `ValueError` for a non-header column; `IndexError` with the table unchanged if a row is too short; otherwise the rows end ordered by the column, stably, as a permutation, equal to `SortBy`, with `values` of the column now sorted |
| TableFu.Table.Values | table_fu/__init__.py:96-100 | `ValueError` for a non-header column; `IndexError` exactly when some row is too short; otherwise entry `i` is row `i`'s cell under the column |
| TableFu.Table.Total | table_fu/__init__.py:102-111 | `ValueError` for a non-header column; `values`' error passes through; otherwise a `ValueError('Column c contains non-numeric values')` exactly when some value fails to convert |
| TableFu.Table.FacetBy | table_fu/__init__.py:113-134 | fails exactly when `row[c]` fails on some row, with that error; otherwise one fresh table per distinct value in ascending order, each with the header, the shared options, its label, and as its one row the last row with that value |
| TableFu.Table.CollectFacets | table_fu/__init__.py:118-122 | the first loop: stops with the first failing lookup's error, else returns the dictionary `LastByValue` describes with its keys in first-seen order |
| TableFu.Table.CollectRow | table_fu/__init__.py:119-122 | one pass of the first loop: fails exactly when `row[c]` fails on row `i`, with that error; otherwise the dictionary and key order grow to cover row `i` |
| TableFu.Table.BuildFacets | table_fu/__init__.py:125-131 | the second loop: one fresh facet table per key, in key order |
| TableFu.Table.NewFacet | table_fu/__init__.py:126-130 | a new table from `[header] + group`, labelled and sharing the parent's options |
| TableFu.Table.GetSucceeds | table_fu/__init__.py:159-163 | a successful `row[c]` means `c` is a header and an active column, and it reads the cell at the active position |
| TableFu.Row.Equals | table_fu/__init__.py:151-154 | two rows are equal exactly when their cells are, so equal rows have the same length and the same `repr` |
| TableFu.Row.Length | table_fu/__init__.py:156-157 | `len(row)` is the number of cells, and the first cell is shown right after `<Row: ` |
| TableFu.Row.Get | table_fu/__init__.py:159-163 | `row[c]`: `KeyError` exactly when `c` is not a header name; `ValueError` with `repr(c)` and ` is not in list` when it is not an active column; otherwise the cell at `c`'s position in the active columns, or `IndexError` past the row's end |
| TableFu.Row.GetByHeader | table_fu/__init__.py:159-163 | intended `row[c]`: the cell at `c`'s header position |
| TableFu.Row.Repr | table_fu/__init__.py:165-166 | `repr(row)` starts with `<Row: ` and ends with `>`; with no cells it is `<Row: >`, with one cell it wraps exactly that cell |
| TableFu.RowReprSnoc | table_fu/__init__.py:165-166 | for several cells, `repr(row)` is the `repr` of all but the last cell with `, ` and the last cell inserted before the `>`, so the cells appear in order, separated by `, ` |
| TableFu.Datum.Repr | table_fu/__init__.py:179-180 | `repr(datum)` is `<`, the column name, `: `, the value, `>` |
| TableFu.Datum.ToString | table_fu/__init__.py:182-183 | `str(datum)` is the value, which is what `repr(datum)` shows after the column name |
| TableFu.RowsAgree | table_fu/__init__.py:59-74 | `t[i]` equals `t.rows[i]` under `__eq__`, holds row `i`'s cells, and has that row's length; `t.rows` has one entry per row |
| TableFu.LengthOffByOne | table_fu/__init__.py:65-66 | `len(t)` as written is one less than the number of rows |
| TableFu.RowLookupMatchesValues | table_fu/__init__.py:159-163 | without active columns, `row[c]` on row `i` is the Datum whose string is entry `i` of `values(c)` |
| TableFu.HeaderLookupMatchesValues | table_fu/__init__.py:159-163 | the intended lookup agrees with `values(c)` whatever the active columns are |
| TableFu.GetUsesActivePosition | table_fu/__init__.py:159-163 | with columns `['Style', 'Author']`, `row['Author']` returns the book title instead of the author |
| TableFu.TotalAfterSort | table_fu/__init__.py:90-111 | sorting by any column leaves the total of every column, the sort column or another, as it was |
| TableFu.SumOfPermutation | table_fu/__init__.py:106-111 | the total of a list of values depends only on which values it holds, not on their order |
| Grid.ColumnOfSortPermutes | table_fu/__init__.py:90-100 | after sorting by one column, `values` of any column holds the same values as before, as a multiset |
| Formatters.ResolveName | table_fu/formatters.py:44-46 | a missing or empty name falls back to the callable's `__name__`, and raises `AttributeError` exactly when the callable has none |
| Formatters.Registered | table_fu/formatters.py:44-48 | register raises exactly when the name cannot be resolved; otherwise it binds the resolved name to the callable and leaves every other entry unchanged |
| Formatters.Unregistered | table_fu/formatters.py:50-57 | unregister raises exactly when the name cannot be resolved; otherwise it removes exactly the resolved name, and the registry is unchanged when that name is absent |
| Formatters.Apply | table_fu/formatters.py:38-42 | a callable runs on `(value, *args)` directly; a name runs its registered callable, or raises `KeyError` exactly when unregistered |
| Formatters.Formatter.constructor | table_fu/formatters.py:33-36 | registering each default under its key leaves the registry equal to the defaults |
| Formatters.Formatter.Register | table_fu/formatters.py:44-48 | the registry becomes `Registered` of the old one, or stays as it was when that raises, and the error is returned |
| Formatters.Formatter.Unregister | table_fu/formatters.py:50-57 | the registry becomes `Unregistered` of the old one, or stays as it was when that raises, and the error is returned |
| Formatters.Formatter.Call | table_fu/formatters.py:38-42 | a call on this instance is `Apply` over its registry, raising `KeyError` exactly for an unregistered name |
| Formatters.NewFormatter | table_fu/formatters.py:7-36 | `Formatter()` starts with an empty registry, since there are no defaults |
| Formatters.RegisterLastWins | table_fu/formatters.py:48 | registering twice under one name keeps only the second callable |
| Formatters.RegisterThenUnregister | table_fu/formatters.py:44-57 | register followed by unregister removes the name and leaves all else as before; when the name cannot be resolved both raise the same error |
| Formatters.CallAfterRegister | table_fu/formatters.py:38-48 | after registering `f`, calling by its name runs `f` |
| Formatters.CallAfterUnregister | table_fu/formatters.py:38-57 | after unregistering a name, calling by it raises `KeyError` |
| Formatters.NamelessFails | table_fu/formatters.py:44-57 | without a name, a callable lacking `__name__` makes both register and unregister raise `AttributeError` |
| Formatters.DirectIgnoresRegistry | table_fu/formatters.py:38-42 | a callable passed directly gives the same result whatever is registered |

## Left out

- The file branch of the constructor (`csv.reader` over an open file) and the `urllib2` import. This is parsing and I/O; the input is an already-parsed `seq<seq<string>>`.
- The constructor's aliasing of the caller's list. `pop(0)` also removes the header from the caller's own list; the model takes the rows by value.
- Python's negative and out-of-range indices in `t[i]` and `delete_row`. These are a precondition `0 <= i < |table|`.
- TableFu.Table.Total: does not model floating-point conversion, rounding or the order of `sum`'s additions. `float` is the parameter `parse`, and the sum is over exact reals.
- TableFu.Row.Equals: does not model the `type(other) == type(self)` test, because a `Row` is only ever compared with a `Row` here.
- The `totals` and `faceted_by` fields are only initialised, as in the source.
- The module-level singleton `format = Formatter()` is global state; `NewFormatter` models one such instance.
- Formatters.Formatter.constructor: requires that no default be registered under the empty name. Under an empty key, the callable's `__name__` takes over (or `AttributeError` is raised) and the result would depend on dictionary order. `DEFAULT_FORMATTERS` is empty, so this never arises.
- Formatted values and formatter arguments are strings; a callable's result is a string.
- Strings are sequences of characters. Python 2's byte strings compare byte by byte, which matches `StrLe` on characters.
- TableFu.Table.FacetBy: produces the facet tables directly in ascending label order. It does not create them in dictionary order and then sort them with `list.sort`. `FacetKeysAnyOrder` proves that sorting the keys in any order the dictionary may yield gives the same labels.
- `str(row)` falls back to `repr(row)`; only `Row.Repr` is modelled.
- Strings.PyRepr: Python 2's byte strings hold no character above `0xff`. The model writes such a character as `\x` and all its hex digits, as `%02x` would, and proves the round trip only for byte strings.
- The `AttributeError` message carries only the missing attribute's name, `__name__`. Python's message also names the callable's type.

## Findings

The `Table`, `Row` and `Datum` members follow the code as written, including these four defects. The corrected definitions sit beside them, with the intended properties proved about them.

| source | as written | input that shows it | evidently intended | confidence | as-written member | corrected member |
|---|---|---|---|---|---|---|
| table_fu/__init__.py:65-66 | `len(t)` returns `len(self.table[1:])`, but the header is already gone from `table` | any table with one data row: `len(t)` is 0 | the number of data rows, `len(self.table)` | not executed | TableFu.LengthOffByOne | TableFu.Table.RowCount |
| table_fu/__init__.py:120 | `if row[column]:` tests a `Datum`, and every `Datum` is true | rows `[["Joyce", ""]]` faceted on column 1 give a facet labelled `""` | skip rows whose value is empty | not executed | Faceting.FacetKeepsEmptyValue | Faceting.GroupsAreRuns |
| table_fu/__init__.py:121-122 | every hit re-creates the value's list, so each facet keeps only the last row with that value | rows `[["Joyce", "Modernism"], ["Beckett", "Modernism"]]` faceted on column 1 give one facet holding only Beckett's row | every row with the value, in table order | not executed | Faceting.FacetKeepsOnlyLastRow | Faceting.GroupsAreRuns |
| table_fu/__init__.py:159-163 | `row[c]` checks `c` against the header but takes its position from the active columns, then indexes the header-ordered cells | header `Author, Best Book, Number of Pages, Style`, columns `['Style', 'Author']`: `row['Author']` gives `Malone Muert` | the cell under `c` in the header | not executed | TableFu.GetUsesActivePosition | TableFu.HeaderLookupMatchesValues |
