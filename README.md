# database_manager: SQL text and connection-string builders in Dafny

This project models the part of `database_manager` that builds text. The rest
of the repository passes that text to pyodbc, SQLAlchemy or pandas.

- **INSERT text.** `params_generic_query` builds the column list and the `?`
  list. `insert_tbl` turns them into `INSERT INTO t(c1,...) VALUES (?,...)`.
- **MERGE (upsert) text.** `upsert_tbl` builds five fragments and splices them
  into the MERGE literal:
  - the column list;
  - the `Source.c` list;
  - the `c=Source.c` assignments;
  - the `Target.k=Source.k` conjunction;
  - the batched `?, ?, ...` placeholder text.

  `upsert_tbl_sa` builds the same MERGE with indexed placeholders `?0, ?1, ...`
  and the `WHEN NOT MATCHED BY Target` wording. It then substitutes each row's
  values into the text and produces one statement per row.
- **Packed INSERT.** `insert_tbl_sa` renders each `;`-packed cell as a list of
  SQL literals. It puts that list into every `?` of the INSERT, then turns every
  `;` into `, `.
- **Connection strings.** `get_string_connection` builds the ODBC attribute
  string. `get_string_connection_sa` builds the SQLAlchemy URI, with `@` in the
  password encoded as `%40`. Both exist in `connect_tenax_db.py` and in
  `connect_db.py`.

## Files

- `text.dfy`, module `Text`. The Python string operations the builders use:
  - `sep.join`;
  - `s.split(sep)`;
  - `s.replace(old, new)`: replace-all, left to right, the inserted text never rescanned;
  - `s.count(c)`;
  - `str(n)`.

  It also holds the facts that connect them: split and join are inverses,
  replace distributes over concatenation and joins, and replace equals split
  followed by join.
- `fragments.dfy`, module `Fragments`. Builders that `queries_tenax_db.py` and
  `queries_db.py` share character for character:
  - `params_generic_query`, an imperative method over an array;
  - the INSERT text;
  - the MERGE fragments and template.

  The MERGE literal's whitespace is reproduced exactly. Each backslash
  continuation keeps the next line's leading spaces: 12 before `USING`, `WHEN`
  and `WHEN`, and 16 before `ON`, `INSERT` and `UPDATE` (`Indent12`, `Indent16`).
- `queries_tenax.dfy`, module `QueriesTenax`. The substitution loops of
  `upsert_tbl_sa` and `insert_tbl_sa`, as methods with loop invariants, each
  proved against a specification function. `Placeholder(i)` is the text `?{i}`
  and `PlaceholderNames(n)` the list the append loop builds; `Literals(row)`
  renders a row cell by cell with `Literal`, and `PieceLiterals` a packed cell
  field by field with `PieceLiteral`. `NoMarker(v)` says that no `?` of `v` is
  followed by a digit, so no placeholder replacement can touch `v`.
- `connection.dfy`, three modules:
  - `Connection`: the shared formats;
  - `ConnectTenax` and `ConnectDb`: each file's constants.

  `get_user()` and `get_pass()` become the parameters `user` and `password`, so
  each builder is a function of those two texts alone.

## Model

| member | source | states |
|---|---|---|
| Text.SplitOn | queries_tenax_db.py:332 | `value.split(';')` always yields at least one piece |
| Text.SplitJoin | queries_tenax_db.py:332-339 | for a non-empty list of parts, none of which holds the first character of the non-empty separator, splitting their join on the separator gives the parts back |
| Text.JoinSplit | queries_tenax_db.py:332-339 | joining the pieces of a split with the same separator gives the text back |
| Text.SplitCount | queries_tenax_db.py:332 | a split on one character yields one piece more than the text has of that character |
| Text.ReplaceIsSplitJoin | queries_tenax_db.py:340 | `s.replace(c, r)` for a one-character `c` equals `r.join(s.split(c))` |
| Text.ReplaceJoin | queries_tenax_db.py:120 | a replacement acts on each joined part separately when the pattern and the separator are non-empty and neither holds the first character of the other |
| Text.NatToString | queries_tenax_db.py:181 | `str(i)` is a non-empty run of digits, one digit exactly when `i < 10` |
| Text.DigitsPrefix | queries_tenax_db.py:181 | when `str(k)` is a prefix of `str(j)`, `k <= j`, with equality when the lengths match |
| Fragments.ParamsGenericQuery | queries_tenax_db.py:21-38 | the column list is `(` + names joined by `,` + `)`; overwriting every element with `?` gives `(` + n `?` joined by `,` + `)`; zero columns give `()` twice; built the same way in queries_db.py, lines 17-34 |
| Fragments.ColumnListRoundTrip | queries_tenax_db.py:34-35 | for at least one name and no `,` in any name, the column list is parenthesised and splitting its inside on `,` returns the names in order (zero names would read back as one empty name) |
| Fragments.PlaceholderListShape | queries_tenax_db.py:36-37 | the `?` list holds exactly n `?`; for n ≥ 1, split on `,` it is n single `?`; for n = 0 it is `()` |
| Fragments.InsertStatement | queries_tenax_db.py:65 | with names free of `?`, the INSERT has exactly one `?` per column; zero columns give `INSERT INTO t() VALUES ()` rather than an error; built the same way in queries_db.py, line 62 |
| Fragments.MatchOn | queries_tenax_db.py:116-117 | the ON text is empty exactly when the key list is empty |
| Fragments.MatchOnShape | queries_tenax_db.py:116-117 | with key names free of spaces, the ON text is one `Target.k=Source.k` per key, in key order, joined by ` and `; an empty key list gives an empty text; built the same way in queries_db.py, lines 116-117 |
| Fragments.SourceListMatchesColumns | queries_tenax_db.py:108-111 | for at least one column and no `,` in any name, the `Source.` value list and the column list have the same length, and element i of one is `Source.` + element i of the other; built the same way in queries_db.py, lines 108-111 |
| Fragments.UpdateSetShape | queries_tenax_db.py:113-114 | for at least one column and no `,` in any name, UPDATE SET holds one `c=Source.c` per column, key columns included, in column order; built the same way in queries_db.py, lines 113-114 |
| Fragments.StripListRepr | queries_tenax_db.py:120 | stripping `[`, `]` and `'` from the repr of a list of strings none of which holds `[`, `]` or `'` gives its elements joined by `, `; the repr is modelled without Python's escaping of backslashes and unprintable characters, which the lists it is applied to (`?` and `?{i}`) never hold |
| Fragments.BatchPlaceholdersShape | queries_tenax_db.py:119-120 | the batched placeholder text is n `?` joined by `, `, has n `?`, and is empty exactly when n = 0; built the same way in queries_db.py, lines 119-120 |
| Fragments.MergeSql | queries_tenax_db.py:124-130 | with names free of `?`, the MERGE has exactly as many `?` as the placeholder text spliced into it: the literal adds none; built the same way in queries_db.py, lines 123-129 |
| Fragments.MergeFrameFree | queries_tenax_db.py:124-130 | with names free of `?`, the MERGE text around the placeholder list holds no `?` |
| Fragments.UpsertStatement | queries_tenax_db.py:119-133 | with names free of `?`, the batched MERGE holds exactly one `?` per column, so each row binds one parameter per column; built the same way in queries_db.py, lines 119-129 |
| Fragments.MergeClauseOrder | queries_tenax_db.py:124-130 | USING comes before ON, ON before WHEN NOT MATCHED (BY Target in the literal variant), and that before WHEN MATCHED; built the same way in queries_db.py, lines 123-129 |
| Fragments.MergeReusesColumnList | queries_tenax_db.py:124-130 | the same column list is the `AS s (...)` alias and the INSERT column list followed by the `Source.` list, and the alias comes first; built the same way in queries_db.py, lines 123-129 |
| QueriesTenax.PlaceholderPrefix | queries_tenax_db.py:181 | `?{i}` is a prefix of `?{j}` exactly when the digits of i are a prefix of the digits of j, which is how `?1` sits inside `?10` |
| QueriesTenax.PlaceholderNamesDistinct | queries_tenax_db.py:179-181 | the n appended placeholder names are pairwise different |
| QueriesTenax.IndexedPlaceholders | queries_tenax_db.py:179-182 | the append loop and repr stripping produce `?0, ?1, ..., ?{n-1}` |
| QueriesTenax.IndexedPlaceholdersShape | queries_tenax_db.py:179-182 | the indexed placeholder text is empty exactly when n = 0 and otherwise splits on `, ` into `?0` .. `?{n-1}` |
| QueriesTenax.UpsertTemplate | queries_tenax_db.py:168-190 | the text formatted before the rows is the MERGE with the indexed placeholders and `WHEN NOT MATCHED BY Target` |
| QueriesTenax.Literal | queries_tenax_db.py:196-198 | a str value comes back between a leading and a trailing `'`, its own quotes left unescaped (two more quotes); None renders as `None` |
| QueriesTenax.RenderUpTo | queries_tenax_db.py:193-198 | replacing `?0` .. `?{k-1}` in ascending order leaves a text with no `?` followed by a digit unchanged |
| QueriesTenax.RenderRow | queries_tenax_db.py:193-198 | the inner loop as written: `?0`, `?1`, ... replaced in ascending order, each with replace-all |
| QueriesTenax.RenderRowFillsValues | queries_tenax_db.py:193-198 | with at most ten columns, names free of `?` and no value holding a `?` followed by a digit, the ascending loop yields the MERGE with the row's values in column order, and no `?` followed by a digit is left |
| QueriesTenax.ElevenColumnsMisrender | queries_tenax_db.py:193-198 | with eleven or more columns, table, key and column names free of `?` and no value holding a `?` followed by a digit, the first ten slots get their own values and slot 10 receives value 1 followed by `0`; so, when no value holds `,`, the statement differs from the intended one whenever value 10 is not value 1 followed by `0` |
| QueriesTenax.RenderRowCorrected | queries_tenax_db.py:193-198 | the corrected loop replaces `?{n-1}` down to `?0` |
| QueriesTenax.RenderDownFrom | queries_tenax_db.py:193-198 | replacing `?{k-1}` down to `?0` leaves a text with no `?` followed by a digit unchanged |
| QueriesTenax.DescendingFillsValues | queries_tenax_db.py:193-198 | with table, key and column names free of `?`, one value per column and no value holding a `?` followed by a digit, descending replacement yields the MERGE with the values in column order whatever the width, and no `?` followed by a digit is left |
| QueriesTenax.RenderRows | queries_tenax_db.py:193-200 | the row loop as written: one statement per row, in row order, each the ascending replacement of that row's literals into the same template |
| QueriesTenax.RenderRowsCorrected | queries_tenax_db.py:193-200 | the row loop with the corrected inner loop: one statement per row, in row order, each the descending replacement of that row's literals |
| QueriesTenax.UpsertSaStatements | queries_tenax_db.py:145-208 | the loops as written: one statement per row, in row order, each the ascending replacement over that row's literals; with table, key and column names free of `?`, at most ten columns, one value per column and no value holding a `?` followed by a digit, each statement is the MERGE with that row's values |
| QueriesTenax.UpsertSaStatementsCorrected | queries_tenax_db.py:145-208 | the same loops in descending order: one statement per row, in row order, each the descending replacement of that row's literals; with table, key and column names free of `?`, every full row whose values hold no `?` followed by a digit gets the MERGE with its values, whatever the number of columns |
| QueriesTenax.PieceLiteral | queries_tenax_db.py:333-338 | a field that `float()` accepts is kept as it is; any other field comes back between a leading and a trailing `'`, and no character other than `'` is added |
| QueriesTenax.ParamLiteral | queries_tenax_db.py:332-339 | a rendered cell holds no `;`, and a cell whose fields are all numeric renders as the cell with every `;` turned into `, ` |
| QueriesTenax.PackedParam | queries_tenax_db.py:332-339 | the split, in-place quoting loop and join of a cell produce the fields' literals joined by `, ` |
| QueriesTenax.ParamLiteralFree | queries_tenax_db.py:332-339 | a rendered cell never holds `;`, and holds `?` only if the cell did |
| QueriesTenax.ParamLiteralShape | queries_tenax_db.py:332-339 | for a cell without `,`, reading the rendered cell back on `, ` gives its field literals, one more than the cell's count of `;` |
| QueriesTenax.StrPrefix | queries_tenax_db.py:331-332 | the cells processed before `param.split` fails are the leading str cells of the row |
| QueriesTenax.RowLines | queries_tenax_db.py:331-342 | one executed statement per processed cell |
| QueriesTenax.InsertSaRow | queries_tenax_db.py:330-342 | the statements run for a row are the chained replace steps over its leading str cells; the loop fails exactly when a non-str cell follows them |
| QueriesTenax.TableLines | queries_tenax_db.py:329-342 | the run fails exactly when some row holds a cell that is not a str |
| QueriesTenax.PackedColumnTable | queries_tenax_db.py:327-342 | on a table of one packed column, with the table name free of `?` and `;` and the column name free of `?`, where every row is one str cell: each row starts again from the INSERT text, so the run executes one statement per row, in row order, each naming every field and holding that row's literals, and does not fail |
| QueriesTenax.InsertTblSa | queries_tenax_db.py:318-343 | the statements executed, and whether the run stopped, are those of the INSERT text over all rows |
| QueriesTenax.SaStep | queries_tenax_db.py:340 | after one step no `;` is left, and a statement holding neither `?` nor `;` passes through unchanged |
| QueriesTenax.MarksFilled | queries_tenax_db.py:340 | `replace('?', R)` on the `?` list puts R in every slot |
| QueriesTenax.SettledLines | queries_tenax_db.py:340 | once a statement holds neither `?` nor `;`, every later cell's step leaves it unchanged |
| QueriesTenax.PackedSemicolons | queries_tenax_db.py:340 | with a table name and a rendered value R free of `;`, `replace(';', ', ')` on the one-column INSERT unpacks the `;`-packed column name into a `, `-separated field list and changes nothing else |
| QueriesTenax.PackedColumnStatement | queries_tenax_db.py:327-342 | with the table name free of `?` and `;` and the one packed column name free of `?`, the one statement run for a packed cell names every field and gives one literal per packed value |
| QueriesTenax.FirstStepFillsAll | queries_tenax_db.py:340 | with the table and column names free of `?` and `;`, and a literal R free of `?` and `;`, the first step turns the INSERT into one whose every slot holds R, with no `?` or `;` left |
| QueriesTenax.ColumnsAllGetFirstValue | queries_tenax_db.py:329-342 | with the table and column names free of `?` and `;` and a first cell free of `?`, every statement of a row is the INSERT with the first cell's literal in every slot |
| Connection.CursorString | connect_tenax_db.py:31 | nothing is escaped: the attribute string holds the format's six `;` plus every `;` of the five values |
| Connection.EncodePassword | connect_tenax_db.py:34 | the encoded password holds no `@`, and a password without `@` is used as it is |
| Connection.SaUri | connect_tenax_db.py:34 | with a user name free of `@`, the URI holds exactly one `@` |
| Connection.EncodePasswordShape | connect_tenax_db.py:34 | the encoded password has no `@`, equals the password when it had none, and grows by two characters per `@` |
| Connection.EncodeDecodeRoundTrip | connect_tenax_db.py:34 | percent-decoding the encoded password gives it back when it holds no `%` |
| Connection.PercentInPasswordNotPreserved | connect_tenax_db.py:34 | a `%` is left as it is, so the password `%41` decodes as `A` |
| Connection.CursorFields | connect_tenax_db.py:31 | with values free of `;`, the attribute string splits into `Driver=`, `Server=`, `Database=`, `UID=`, `PWD=`, `PORT=1433` and a final empty field, in that order, each value verbatim |
| Connection.CursorFieldCount | connect_tenax_db.py:31 | nothing is escaped: the attribute string has seven fields plus one per `;` inside the values |
| Connection.SaUriSingleAt | connect_tenax_db.py:34 | with a user name free of `@`, the URI has exactly one `@`, and splitting there gives the credentials and the fixed host part |
| ConnectTenax.GetStringConnection | connect_tenax_db.py:22-31 | the Tenax constants add no `;`: the attribute string has six `;` plus those of the user name and password |
| ConnectTenax.GetStringConnectionSa | connect_tenax_db.py:33-34 | with a user name free of `@`, the URI holds exactly one `@` |
| ConnectTenax.TenaxCursorFields | connect_tenax_db.py:22-31 | with user name and password free of `;`, the attribute string names the Tenax driver, server and database, then the user and password verbatim |
| ConnectTenax.TenaxStringsAgree | connect_tenax_db.py:26-34 | with a user name free of `@`, the URI's host part is the attribute string's server without `tcp:`, followed by its database |
| ConnectDb.GetStringConnection | connect_db.py:21-30 | the placeholder constants add no `;`: the attribute string has six `;` plus those of the user name and password |
| ConnectDb.GetStringConnectionSa | connect_db.py:32-33 | with a user name free of `@`, the URI holds exactly one `@` |
| ConnectDb.DbCursorFields | connect_db.py:21-30 | with user name and password free of `;`, the attribute string carries the placeholder driver, server and database, then the user and password verbatim |
| ConnectDb.DbUriIgnoresServer | connect_db.py:21-33 | with a user name free of `@`, the URI is the Tenax one: its host part is `tenax.database.windows.net/tenax-db`, not this file's server and database |

## Left out

- Database I/O is not modelled. This covers `pyodbc.connect`, `sa.create_engine`,
  `connect`, `executemany`, `execute`, `commit`, `rollback`, `close` and
  `conn.begin()`. The model's result is the text these calls would receive,
  statement by statement.
- pandas is not modelled: `df.values.tolist()`, `fillna` and `replace([np.nan],
  [None])`. A data frame is a column list plus rows of `Cell`, which is a str,
  an int, None, or any other value given by its `str()` text.
- Python's `float()` grammar is not modelled. `insert_tbl_sa` takes the
  predicate `isNumeric`, which says which texts `float()` accepts.
- The error paths are not modelled. In the source they:
  - raise a str, which is itself a `TypeError`;
  - use an unbound `cursor` after a failed connection in `upsert_tbl`;
  - skip `conn.close()` when `insert_tbl_sa` raises.

  The one failure that decides which statements run is modelled: `param.split`
  on a cell that is not a str. `InsertSaRow` and `InsertTblSa` report it as
  `failed`.
- The functions `read_tbl`, `read_tbl_custom`, `execute_custom_query` and
  `execute_custom_query_sa` are not modelled. They pass text through to the
  database unchanged.
- `get_user` and `get_pass` are not modelled. Their results are the parameters
  `user` and `password`, and the credentials in the source are not reproduced.
- `GetStringConnection` and `GetStringConnectionSa` depend on `user` and
  `password` only. That follows from their signatures, so no lemma states it.
- Zero columns give `()` lists and an empty key list gives `ON ` with an empty
  condition. The code rejects neither, and the model follows the code.
- Keys are not checked against the columns, in the code or in the model.
- Column names are assumed to be str. A column name of another type makes
  `",".join(columns_list)` (queries_tenax_db.py:35, and line 106 in `upsert_tbl`)
  raise a `TypeError`. The model's names are `string` values, so that error is
  not modelled. Table and key names go through f-strings, which accept any value;
  the model takes them as their text.
- A NULL cell is rendered as `None` in `upsert_tbl_sa`, which is what `str(None)`
  gives.
- Only `@` in the password is percent-encoded. A `%` is not, contrary to section
  2.1 of RFC 3986, so a password containing `%41` reaches the driver as `A`
  (`Connection.PercentInPasswordNotPreserved`).
- QueriesTenax.UpsertSaStatementsCorrected models the corrected substitution
  order, as described under Findings. `QueriesTenax.UpsertSaStatements` and
  `QueriesTenax.RenderRow` keep the loop as written.
- QueriesTenax.RenderRowFillsValues is stated only for at most ten columns. With
  eleven or more columns the ascending order does not fill the values, as
  `QueriesTenax.ElevenColumnsMisrender` shows.
- QueriesTenax.DescendingFillsValues does not cover values that hold a `?`
  followed by a digit. Such a value can itself be rewritten by a later
  replacement (the value `?0` in slot 1 is replaced by value 0), so the model
  states nothing about those rows.
- QueriesTenax.InsertTblSa: the statements are modelled in the order they are
  executed. The database's response to each statement is not modelled.

## Findings

| source | as written | input that shows it | evidently intended | confidence | as-written member | corrected member |
|---|---|---|---|---|---|---|
| queries_tenax_db.py:193-198 | placeholders `?0 .. ?{n-1}` are replaced in ascending order with replace-all, so replacing `?1` also rewrites the front of `?10` .. `?19` | a table of 11 or more columns, every value `5`: slot 10 receives `50` instead of `5` | every `?i` receives value i, whatever the number of columns (replacing from the highest index down) | not executed | QueriesTenax.ElevenColumnsMisrender | QueriesTenax.DescendingFillsValues |
