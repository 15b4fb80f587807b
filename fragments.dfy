/**
 * The SQL text builders that queries_tenax_db.py and queries_db.py both contain,
 * character for character: `params_generic_query`, the INSERT text of `insert_tbl`,
 * and the MERGE fragments and template of `upsert_tbl`. Table, column and key
 * names are used verbatim as SQL identifiers; nothing is quoted or escaped.
 */
module Fragments {
  import opened Text

  // ---------------------------------------------------------------- fragments

  /** `f'({",".join(names)})'`: a parenthesised, comma-separated list. */
  function ColumnList(names: seq<string>): string
  {
    "(" + Join(",", names) + ")"
  }

  /** The text between the parentheses of a `ColumnList`. */
  function Inner(list: string): string
    requires |list| >= 2
  {
    list[1..|list| - 1]
  }

  /** `[f'Source.{i}' for i in columns]` */
  function SourceColumns(names: seq<string>): seq<string>
  {
    seq(|names|, i requires 0 <= i < |names| => "Source." + names[i])
  }

  /** The INSERT branch's value list `(Source.c1,...,Source.cn)`. */
  function SourceList(names: seq<string>): string
  {
    ColumnList(SourceColumns(names))
  }

  /** `[f'{i}=Source.{i}' for i in columns]` */
  function Assignments(names: seq<string>): seq<string>
  {
    seq(|names|, i requires 0 <= i < |names| => names[i] + "=Source." + names[i])
  }

  /** The UPDATE SET text: one assignment per column, key columns included. */
  function UpdateSet(names: seq<string>): string
  {
    Join(",", Assignments(names))
  }

  /** `[f'Target.{i}=Source.{i}' for i in keys]` */
  function MatchConditions(keys: seq<string>): seq<string>
  {
    seq(|keys|, i requires 0 <= i < |keys| => "Target." + keys[i] + "=Source." + keys[i])
  }

  /** The ON text. An empty key list is accepted and gives an empty condition. */
  function MatchOn(keys: seq<string>): (r: string)
    ensures r == "" <==> keys == []
  {
    var conditions := MatchConditions(keys);
    assert keys != [] ==> |conditions[0]| > 0;
    Join(" and ", conditions)
  }

  /** Python's `str(xs)` for a list of strings none of which holds a quote, a
      backslash or an unprintable character (those Python would escape):
      `['a', 'b']`. It is applied only to the `?` and `?{i}` lists. */
  function ListRepr(xs: seq<string>): string
  {
    "[" + Join(", ", seq(|xs|, i requires 0 <= i < |xs| => "'" + xs[i] + "'")) + "]"
  }

  /** `.replace("[","").replace("]","").replace("'","")` */
  function StripRepr(s: string): string
  {
    ReplaceAll(ReplaceAll(ReplaceAll(s, "[", ""), "]", ""), "'", "")
  }

  /** The placeholder text of the batched MERGE: the repr of `['?' for _ in columns]`
      with brackets and quotes stripped. */
  function BatchPlaceholders(n: nat): string
  {
    StripRepr(ListRepr(Repeat("?", n)))
  }

  // ---------------------------------------------------------------- statements

  /** `f"INSERT INTO {MY_TABLE}{COLUMNS} VALUES {PARAMS}"` */
  function InsertText(table: string, columns: string, params: string): string
  {
    "INSERT INTO " + table + columns + " VALUES " + params
  }

  /** The parameterised INSERT of `insert_tbl`, as a function of table and columns.
      It binds exactly one parameter per column: with names free of `?`, its `?`
      count is the column count (zero columns give `() VALUES ()`). */
  function InsertStatement(table: string, cols: seq<string>): (r: string)
    ensures '?' !in table && Free('?', cols) ==> Count(r, '?') == |cols|
    ensures cols == [] ==> r == "INSERT INTO " + table + "() VALUES ()"
  {
    InsertCount(table, cols);
    InsertText(table, ColumnList(cols), ColumnList(Repeat("?", |cols|)))
  }

  /** Leading spaces that the backslash continuations of the MERGE literal keep. */
  const Indent12 := "            "
  const Indent16 := "                "

  /** The MERGE literal up to the placeholder list. */
  function MergePrefix(table: string): string
  {
    "MERGE INTO " + table + " as Target " + Indent12 + "USING (SELECT * FROM (VALUES ("
  }

  /** The rest of the USING clause: the alias list of the VALUES row. */
  function UsingTail(cols: seq<string>): string
  {
    ")) AS s " + ColumnList(cols) + ") AS Source "
  }

  function OnClause(keys: seq<string>): string
  {
    Indent16 + "ON " + MatchOn(keys) + " "
  }

  /** The condition of the INSERT branch; the literal variant says `BY Target`. */
  function NotMatched(byTarget: bool): string
  {
    if byTarget then "WHEN NOT MATCHED BY Target THEN " else "WHEN NOT MATCHED THEN "
  }

  /** `INSERT (c1,...,cn) VALUES (Source.c1,...,Source.cn)` */
  function InsertValues(cols: seq<string>): string
  {
    "INSERT " + ColumnList(cols) + " VALUES " + SourceList(cols)
  }

  function InsertClause(cols: seq<string>, byTarget: bool): string
  {
    Indent12 + NotMatched(byTarget) + (Indent16 + InsertValues(cols) + " ")
  }

  function UpdateClause(cols: seq<string>): string
  {
    Indent12 + "WHEN MATCHED THEN " + (Indent16 + "UPDATE SET " + UpdateSet(cols) + ";")
  }

  /** The MERGE literal after the placeholder list: the alias list, then the ON,
      WHEN NOT MATCHED ... INSERT and WHEN MATCHED ... UPDATE clauses in that order. */
  function MergeSuffix(keys: seq<string>, cols: seq<string>, byTarget: bool): string
  {
    UsingTail(cols) + OnClause(keys) + InsertClause(cols, byTarget) + UpdateClause(cols)
  }

  /** The MERGE statement with the given placeholder text; `byTarget` selects the
      `WHEN NOT MATCHED BY Target` wording of the literal variant. */
  function MergeSql(table: string, keys: seq<string>, cols: seq<string>, placeholders: string, byTarget: bool): (r: string)
    ensures '?' !in table && Free('?', keys) && Free('?', cols) ==> Count(r, '?') == Count(placeholders, '?')
  {
    MergeCount(table, keys, cols, placeholders, byTarget);
    MergePrefix(table) + placeholders + MergeSuffix(keys, cols, byTarget)
  }

  /** The MERGE of `upsert_tbl`, run with one parameter row per data row. With
      names free of `?` it binds exactly one parameter per column, so each data
      row (one value per column) fills it. */
  function UpsertStatement(table: string, keys: seq<string>, cols: seq<string>): (r: string)
    ensures '?' !in table && Free('?', keys) && Free('?', cols) ==> Count(r, '?') == |cols|
  {
    BatchPlaceholdersShape(|cols|);
    MergeSql(table, keys, cols, BatchPlaceholders(|cols|), false)
  }

  /** `params_generic_query`: the column list, then the same list overwritten
      element by element with `?`. */
  method ParamsGenericQuery(cols: seq<string>) returns (columns: string, params: string)
    ensures columns == ColumnList(cols)
    ensures params == ColumnList(Repeat("?", |cols|))
    ensures cols == [] ==> columns == "()" && params == "()"
  {
    var list := new string[|cols|](i requires 0 <= i < |cols| => cols[i]);
    assert list[..] == cols;
    columns := "(" + Join(",", list[..]) + ")";
    for i := 0 to list.Length
      invariant forall j :: 0 <= j < i ==> list[j] == "?"
      invariant forall j :: i <= j < list.Length ==> list[j] == cols[j]
    {
      list[i] := "?";
    }
    assert list[..] == Repeat("?", |cols|);
    params := "(" + Join(",", list[..]) + ")";
  }

  // ---------------------------------------------------------------- lemmas

  /** A column list reads back as its names: parentheses around the names split
      on `,`, in order, when no name holds a comma. */
  lemma ColumnListRoundTrip(names: seq<string>)
    requires |names| >= 1 && Free(',', names)
    ensures |ColumnList(names)| >= 2
    ensures ColumnList(names)[0] == '(' && ColumnList(names)[|ColumnList(names)| - 1] == ')'
    ensures SplitOn(Inner(ColumnList(names)), ",") == names
  {
    var r := ColumnList(names);
    assert Inner(r) == Join(",", names);
    SplitJoin(names, ",");
  }

  /** The placeholder list holds one `?` per column and nothing else between the
      commas. */
  lemma PlaceholderListShape(n: nat)
    ensures Count(ColumnList(Repeat("?", n)), '?') == n
    ensures n >= 1 ==> SplitOn(Inner(ColumnList(Repeat("?", n))), ",") == Repeat("?", n)
    ensures n == 0 ==> ColumnList(Repeat("?", n)) == "()"
  {
    var j := Join(",", Repeat("?", n));
    CountJoinRepeat(",", '?', n);
    CountConcat("(", j, '?');
    CountConcat("(" + j, ")", '?');
    if n >= 1 {
      ColumnListRoundTrip(Repeat("?", n));
    }
  }

  /** The `?` of the INSERT text are those of its placeholder list. */
  lemma InsertCount(table: string, cols: seq<string>)
    ensures '?' !in table && Free('?', cols) ==>
            Count(InsertText(table, ColumnList(cols), ColumnList(Repeat("?", |cols|))), '?') == |cols|
    ensures cols == [] ==>
            InsertText(table, ColumnList(cols), ColumnList(Repeat("?", |cols|))) == "INSERT INTO " + table + "() VALUES ()"
  {
    PlaceholderListShape(|cols|);
    if '?' !in table && Free('?', cols) {
      var params := ColumnList(Repeat("?", |cols|));
      JoinFree(",", cols, '?');
      var head := "INSERT INTO " + table + ColumnList(cols) + " VALUES ";
      assert '?' !in head;
      CountAbsent(head, '?');
      CountConcat(head, params, '?');
    }
  }

  /** The INSERT branch's value list is `Source.` + the column list, piece for
      piece, so both lists have the same length and order. */
  lemma SourceListMatchesColumns(cols: seq<string>)
    requires |cols| >= 1 && Free(',', cols)
    ensures |SplitOn(Inner(SourceList(cols)), ",")| == |SplitOn(Inner(ColumnList(cols)), ",")| == |cols|
    ensures forall i :: 0 <= i < |cols| ==>
      SplitOn(Inner(SourceList(cols)), ",")[i] == "Source." + SplitOn(Inner(ColumnList(cols)), ",")[i]
  {
    ColumnListRoundTrip(cols);
    var src := SourceColumns(cols);
    forall i | 0 <= i < |src| ensures ',' !in src[i] {
      assert src[i] == "Source." + cols[i];
    }
    ColumnListRoundTrip(src);
  }

  /** UPDATE SET holds one `c=Source.c` per column, key columns included, in
      column order. */
  lemma UpdateSetShape(cols: seq<string>)
    requires |cols| >= 1 && Free(',', cols)
    ensures |SplitOn(UpdateSet(cols), ",")| == |cols|
    ensures forall i :: 0 <= i < |cols| ==> SplitOn(UpdateSet(cols), ",")[i] == cols[i] + "=Source." + cols[i]
  {
    var a := Assignments(cols);
    forall i | 0 <= i < |a| ensures ',' !in a[i] {
      assert a[i] == cols[i] + "=Source." + cols[i];
    }
    SplitJoin(a, ",");
  }

  /** The ON text holds one `Target.k=Source.k` per key, in key order, joined by
      ` and ` (keys without spaces); it is empty exactly when there are no keys. */
  lemma MatchOnShape(keys: seq<string>)
    requires Free(' ', keys)
    ensures keys == [] <==> MatchOn(keys) == ""
    ensures keys != [] ==> |SplitOn(MatchOn(keys), " and ")| == |keys|
    ensures keys != [] ==> forall i :: 0 <= i < |keys| ==>
      SplitOn(MatchOn(keys), " and ")[i] == "Target." + keys[i] + "=Source." + keys[i]
  {
    if keys != [] {
      var m := MatchConditions(keys);
      forall i | 0 <= i < |m| ensures ' ' !in m[i] {
        assert m[i] == "Target." + keys[i] + "=Source." + keys[i];
      }
      SplitJoin(m, " and ");
    }
  }

  lemma ReplaceEachAbsent(ts: seq<string>, pat: string, r: string)
    requires |pat| > 0 && Free(pat[0], ts)
    ensures ReplaceEach(ts, pat, r) == ts
  {
    forall i | 0 <= i < |ts| ensures ReplaceAll(ts[i], pat, r) == ts[i] {
      ReplaceAbsent(ts[i], pat, r);
    }
  }

  /** Removing one bracket character from `pre + join + post` leaves the join alone
      when its parts and separator lack that character. */
  lemma StripAround(pre: string, ts: seq<string>, post: string, c: char)
    requires c !in ", " && Free(c, ts)
    ensures ReplaceAll(pre + Join(", ", ts) + post, [c], "") ==
            ReplaceAll(pre, [c], "") + Join(", ", ts) + ReplaceAll(post, [c], "")
  {
    ReplaceConcat(pre + Join(", ", ts), post, [c], "");
    ReplaceConcat(pre, Join(", ", ts), [c], "");
    ReplaceJoin(", ", ts, [c], "");
    ReplaceEachAbsent(ts, [c], "");
  }

  /** Stripping brackets and quotes from the repr of a list gives its elements
      joined by `, `, when the elements hold none of those characters. */
  lemma StripListRepr(xs: seq<string>)
    requires Free('[', xs) && Free(']', xs) && Free('\'', xs)
    ensures StripRepr(ListRepr(xs)) == Join(", ", xs)
  {
    var q := seq(|xs|, i requires 0 <= i < |xs| => "'" + xs[i] + "'");
    StripBrackets(xs, q);
    ReplaceJoin(", ", q, "'", "");
    Unquote(xs, q);
  }

  /** Removing the brackets of a list repr leaves the quoted items joined by `, `. */
  lemma StripBrackets(xs: seq<string>, q: seq<string>)
    requires Free('[', xs) && Free(']', xs)
    requires q == seq(|xs|, i requires 0 <= i < |xs| => "'" + xs[i] + "'")
    ensures ReplaceAll(ReplaceAll(ListRepr(xs), "[", ""), "]", "") == Join(", ", q)
  {
    forall i | 0 <= i < |q| ensures '[' !in q[i] && ']' !in q[i] {
      assert q[i] == "'" + xs[i] + "'";
    }
    StripAround("[", q, "]", '[');
    ReplaceAbsent("]", "[", "");
    assert ReplaceAll("[", "[", "") == "";
    StripAround("", q, "]", ']');
    assert ReplaceAll("]", "]", "") == "";
    assert ReplaceAll("", "]", "") == "";
  }

  /** Removing the quotes of each quoted item gives the items back. */
  lemma Unquote(xs: seq<string>, q: seq<string>)
    requires Free('\'', xs)
    requires q == seq(|xs|, i requires 0 <= i < |xs| => "'" + xs[i] + "'")
    ensures ReplaceEach(q, "'", "") == xs
  {
    forall i | 0 <= i < |q| ensures ReplaceAll(q[i], "'", "") == xs[i] {
      ReplaceConcat("'", xs[i] + "'", "'", "");
      ReplaceConcat(xs[i], "'", "'", "");
      ReplaceAbsent(xs[i], "'", "");
      assert q[i] == "'" + (xs[i] + "'");
    }
  }

  /** The batched placeholder text is n `?` separated by `, `: one per column,
      empty for zero columns. */
  lemma BatchPlaceholdersShape(n: nat)
    ensures BatchPlaceholders(n) == Join(", ", Repeat("?", n))
    ensures Count(BatchPlaceholders(n), '?') == n
    ensures BatchPlaceholders(n) == "" <==> n == 0
  {
    StripListRepr(Repeat("?", n));
    CountJoinRepeat(", ", '?', n);
    if n == 0 {
      assert BatchPlaceholders(n) == "";
    } else {
      assert Count(BatchPlaceholders(n), '?') > 0;
    }
  }

  /** The fragments built from names free of `?` are free of `?`. */
  lemma FragmentsFree(keys: seq<string>, cols: seq<string>)
    requires Free('?', keys) && Free('?', cols)
    ensures '?' !in ColumnList(cols) && '?' !in SourceList(cols)
    ensures '?' !in UpdateSet(cols) && '?' !in MatchOn(keys)
  {
    JoinFree(",", cols, '?');
    var src := SourceColumns(cols);
    forall i | 0 <= i < |src| ensures '?' !in src[i] {
      assert src[i] == "Source." + cols[i];
    }
    JoinFree(",", src, '?');
    var a := Assignments(cols);
    forall i | 0 <= i < |a| ensures '?' !in a[i] {
      assert a[i] == cols[i] + "=Source." + cols[i];
    }
    JoinFree(",", a, '?');
    var m := MatchConditions(keys);
    forall i | 0 <= i < |m| ensures '?' !in m[i] {
      assert m[i] == "Target." + keys[i] + "=Source." + keys[i];
    }
    JoinFree(" and ", m, '?');
  }

  /** With names free of `?`, the only `?` of a MERGE statement are those of its
      placeholder text. */
  lemma MergeFrameFree(table: string, keys: seq<string>, cols: seq<string>, byTarget: bool)
    requires '?' !in table && Free('?', keys) && Free('?', cols)
    ensures '?' !in MergePrefix(table) && '?' !in MergeSuffix(keys, cols, byTarget)
  {
    FragmentsFree(keys, cols);
    UsingTailFree(cols);
    ClausesFree(keys, cols, byTarget);
  }

  lemma UsingTailFree(cols: seq<string>)
    requires '?' !in ColumnList(cols)
    ensures '?' !in UsingTail(cols)
  {
  }

  lemma ClausesFree(keys: seq<string>, cols: seq<string>, byTarget: bool)
    requires '?' !in ColumnList(cols) && '?' !in SourceList(cols)
    requires '?' !in UpdateSet(cols) && '?' !in MatchOn(keys)
    ensures '?' !in OnClause(keys) && '?' !in InsertClause(cols, byTarget) && '?' !in UpdateClause(cols)
  {
    OnClauseFree(keys);
    InsertClauseFree(cols, byTarget);
    UpdateClauseFree(cols);
  }

  lemma OnClauseFree(keys: seq<string>)
    requires '?' !in MatchOn(keys)
    ensures '?' !in OnClause(keys)
  {
  }

  lemma InsertClauseFree(cols: seq<string>, byTarget: bool)
    requires '?' !in ColumnList(cols) && '?' !in SourceList(cols)
    ensures '?' !in InsertClause(cols, byTarget)
  {
    assert '?' !in NotMatched(byTarget);
    assert '?' !in InsertValues(cols);
  }

  lemma UpdateClauseFree(cols: seq<string>)
    requires '?' !in UpdateSet(cols)
    ensures '?' !in UpdateClause(cols)
  {
  }

  /** With names free of `?`, the `?` of a MERGE are those of its placeholder text. */
  lemma MergeCount(table: string, keys: seq<string>, cols: seq<string>, placeholders: string, byTarget: bool)
    ensures '?' !in table && Free('?', keys) && Free('?', cols) ==>
            Count(MergePrefix(table) + placeholders + MergeSuffix(keys, cols, byTarget), '?') == Count(placeholders, '?')
  {
    if '?' !in table && Free('?', keys) && Free('?', cols) {
      var pre, suf := MergePrefix(table), MergeSuffix(keys, cols, byTarget);
      MergeFrameFree(table, keys, cols, byTarget);
      CountConcat(pre, placeholders, '?');
      CountConcat(pre + placeholders, suf, '?');
      CountAbsent(pre, '?');
      CountAbsent(suf, '?');
    }
  }

  /** `w` occurs in `t` at offset `i`. */
  predicate At(t: string, i: nat, w: string)
  {
    i + |w| <= |t| && t[i..i + |w|] == w
  }

  lemma AtEnd(x: string, w: string)
    ensures At(x + w, |x|, w)
  {
    assert (x + w)[|x|..|x| + |w|] == w;
  }

  lemma AtWhole(x: string)
    ensures At(x, 0, x)
  {
    assert x[0..|x|] == x;
  }

  lemma AtLeft(x: string, y: string, i: nat, w: string)
    requires At(x, i, w)
    ensures At(x + y, i, w)
  {
    assert (x + y)[i..i + |w|] == x[i..i + |w|];
  }

  lemma AtRight(x: string, y: string, i: nat, w: string)
    requires At(y, i, w)
    ensures At(x + y, |x| + i, w)
  {
    assert (x + y)[|x| + i..|x| + i + |w|] == y[i..i + |w|];
  }

  /** `w` found at offset `i` of the first of four pieces after a prefix `p`. */
  lemma AtFirst(p: string, a: string, b: string, c: string, d: string, i: nat, w: string)
    requires At(a, i, w)
    ensures At(p + (a + b + c + d), |p| + i, w)
  {
    AtLeft(a, b, i, w);
    AtLeft(a + b, c, i, w);
    AtLeft(a + b + c, d, i, w);
    AtRight(p, a + b + c + d, i, w);
  }

  /** `w` found at offset `i` of the second of four pieces after a prefix `p`. */
  lemma AtSecond(p: string, a: string, b: string, c: string, d: string, i: nat, w: string)
    requires At(b, i, w)
    ensures At(p + (a + b + c + d), |p| + |a| + i, w)
  {
    AtRight(a, b, i, w);
    AtLeft(a + b, c, |a| + i, w);
    AtLeft(a + b + c, d, |a| + i, w);
    AtRight(p, a + b + c + d, |a| + i, w);
  }

  /** `w` found at offset `i` of the third of four pieces after a prefix `p`. */
  lemma AtThird(p: string, a: string, b: string, c: string, d: string, i: nat, w: string)
    requires At(c, i, w)
    ensures At(p + (a + b + c + d), |p| + |a + b| + i, w)
  {
    AtRight(a + b, c, i, w);
    AtLeft(a + b + c, d, |a + b| + i, w);
    AtRight(p, a + b + c + d, |a + b| + i, w);
  }

  /** `w` found at offset `i` of the fourth of four pieces after a prefix `p`. */
  lemma AtFourth(p: string, a: string, b: string, c: string, d: string, i: nat, w: string)
    requires At(d, i, w)
    ensures At(p + (a + b + c + d), |p| + |a + b + c| + i, w)
  {
    AtRight(a + b + c, d, i, w);
    AtRight(p, a + b + c + d, |a + b + c| + i, w);
  }

  lemma UsingAt(table: string, keys: seq<string>, cols: seq<string>, placeholders: string, byTarget: bool)
    ensures At(MergeSql(table, keys, cols, placeholders, byTarget),
               |"MERGE INTO " + table + " as Target " + Indent12|, "USING (SELECT * FROM (VALUES (")
  {
    var u, w := |"MERGE INTO " + table + " as Target " + Indent12|, "USING (SELECT * FROM (VALUES (";
    AtEnd("MERGE INTO " + table + " as Target " + Indent12, w);
    AtLeft(MergePrefix(table), placeholders, u, w);
    AtLeft(MergePrefix(table) + placeholders, MergeSuffix(keys, cols, byTarget), u, w);
  }

  lemma OnInClause(keys: seq<string>)
    ensures At(OnClause(keys), |Indent16|, "ON ")
  {
    AtEnd(Indent16, "ON ");
    AtLeft(Indent16 + "ON ", MatchOn(keys), |Indent16|, "ON ");
    AtLeft(Indent16 + "ON " + MatchOn(keys), " ", |Indent16|, "ON ");
  }

  lemma OnAt(table: string, keys: seq<string>, cols: seq<string>, placeholders: string, byTarget: bool)
    ensures At(MergeSql(table, keys, cols, placeholders, byTarget),
               |MergePrefix(table)| + |placeholders| + |UsingTail(cols)| + |Indent16|, "ON ")
  {
    OnInClause(keys);
    AtSecond(MergePrefix(table) + placeholders, UsingTail(cols), OnClause(keys),
             InsertClause(cols, byTarget), UpdateClause(cols), |Indent16|, "ON ");
  }

  lemma NotMatchedInClause(cols: seq<string>, byTarget: bool)
    ensures At(InsertClause(cols, byTarget), |Indent12|, NotMatched(byTarget))
  {
    var w := NotMatched(byTarget);
    AtEnd(Indent12, w);
    AtLeft(Indent12 + w, Indent16 + InsertValues(cols) + " ", |Indent12|, w);
  }

  lemma NotMatchedAt(table: string, keys: seq<string>, cols: seq<string>, placeholders: string, byTarget: bool)
    ensures At(MergeSql(table, keys, cols, placeholders, byTarget),
               |MergePrefix(table)| + |placeholders| + |UsingTail(cols) + OnClause(keys)| + |Indent12|,
               NotMatched(byTarget))
  {
    NotMatchedInClause(cols, byTarget);
    AtThird(MergePrefix(table) + placeholders, UsingTail(cols), OnClause(keys),
            InsertClause(cols, byTarget), UpdateClause(cols), |Indent12|, NotMatched(byTarget));
  }

  lemma MatchedInClause(cols: seq<string>)
    ensures At(UpdateClause(cols), |Indent12|, "WHEN MATCHED THEN ")
  {
    var w := "WHEN MATCHED THEN ";
    AtEnd(Indent12, w);
    AtLeft(Indent12 + w, Indent16 + "UPDATE SET " + UpdateSet(cols) + ";", |Indent12|, w);
  }

  lemma MatchedAt(table: string, keys: seq<string>, cols: seq<string>, placeholders: string, byTarget: bool)
    ensures At(MergeSql(table, keys, cols, placeholders, byTarget),
               |MergePrefix(table)| + |placeholders| + |UsingTail(cols) + OnClause(keys) + InsertClause(cols, byTarget)| + |Indent12|,
               "WHEN MATCHED THEN ")
  {
    MatchedInClause(cols);
    AtFourth(MergePrefix(table) + placeholders, UsingTail(cols), OnClause(keys),
             InsertClause(cols, byTarget), UpdateClause(cols), |Indent12|, "WHEN MATCHED THEN ");
  }

  /** The MERGE clauses come in the order USING, ON, WHEN NOT MATCHED (BY Target in
      the literal variant), WHEN MATCHED. */
  lemma MergeClauseOrder(table: string, keys: seq<string>, cols: seq<string>, placeholders: string, byTarget: bool)
    ensures exists u: nat, o: nat, n: nat, m: nat {:trigger At(MergeSql(table, keys, cols, placeholders, byTarget), u, "USING (SELECT * FROM (VALUES ("), At(MergeSql(table, keys, cols, placeholders, byTarget), m, "WHEN MATCHED THEN "), At(MergeSql(table, keys, cols, placeholders, byTarget), o, "ON "), At(MergeSql(table, keys, cols, placeholders, byTarget), n, NotMatched(byTarget))} ::
      u < o < n < m &&
      At(MergeSql(table, keys, cols, placeholders, byTarget), u, "USING (SELECT * FROM (VALUES (") &&
      At(MergeSql(table, keys, cols, placeholders, byTarget), o, "ON ") &&
      At(MergeSql(table, keys, cols, placeholders, byTarget), n, NotMatched(byTarget)) &&
      At(MergeSql(table, keys, cols, placeholders, byTarget), m, "WHEN MATCHED THEN ")
  {
    var base := |MergePrefix(table)| + |placeholders|;
    var ut, on, ic := UsingTail(cols), OnClause(keys), InsertClause(cols, byTarget);
    var u := |"MERGE INTO " + table + " as Target " + Indent12|;
    var o := base + |ut| + |Indent16|;
    var n := base + |ut + on| + |Indent12|;
    var m := base + |ut + on + ic| + |Indent12|;
    UsingAt(table, keys, cols, placeholders, byTarget);
    OnAt(table, keys, cols, placeholders, byTarget);
    NotMatchedAt(table, keys, cols, placeholders, byTarget);
    MatchedAt(table, keys, cols, placeholders, byTarget);
    assert u < o < n < m;
  }

  lemma AliasAt(table: string, keys: seq<string>, cols: seq<string>, placeholders: string, byTarget: bool)
    ensures At(MergeSql(table, keys, cols, placeholders, byTarget), |MergePrefix(table)| + |placeholders|,
               ")) AS s " + ColumnList(cols) + ") AS Source ")
  {
    var ut := UsingTail(cols);
    AtWhole(ut);
    AtFirst(MergePrefix(table) + placeholders, ut, OnClause(keys),
            InsertClause(cols, byTarget), UpdateClause(cols), 0, ut);
  }

  lemma InsertValuesInClause(cols: seq<string>, byTarget: bool)
    ensures At(InsertClause(cols, byTarget), |Indent12 + NotMatched(byTarget)| + |Indent16|, InsertValues(cols))
  {
    var lead, iv := Indent12 + NotMatched(byTarget), InsertValues(cols);
    AtEnd(Indent16, iv);
    AtLeft(Indent16 + iv, " ", |Indent16|, iv);
    AtRight(lead, Indent16 + iv + " ", |Indent16|, iv);
  }

  lemma InsertValuesAt(table: string, keys: seq<string>, cols: seq<string>, placeholders: string, byTarget: bool)
    ensures At(MergeSql(table, keys, cols, placeholders, byTarget),
               |MergePrefix(table)| + |placeholders| + |UsingTail(cols) + OnClause(keys)| +
               |Indent12 + NotMatched(byTarget)| + |Indent16|, InsertValues(cols))
  {
    var ut, on := UsingTail(cols), OnClause(keys);
    var ic, uc := InsertClause(cols, byTarget), UpdateClause(cols);
    var i := |Indent12 + NotMatched(byTarget)| + |Indent16|;
    InsertValuesInClause(cols, byTarget);
    AtThird(MergePrefix(table) + placeholders, ut, on, ic, uc, i, InsertValues(cols));
  }

  /** The same column list names the VALUES row (`AS s (...)`) and the INSERT
      columns, and the INSERT takes the `Source.` list of those columns; the alias
      comes first. */
  lemma MergeReusesColumnList(table: string, keys: seq<string>, cols: seq<string>, placeholders: string, byTarget: bool)
    ensures exists a: nat, b: nat {:trigger At(MergeSql(table, keys, cols, placeholders, byTarget), a, ")) AS s " + ColumnList(cols) + ") AS Source "), At(MergeSql(table, keys, cols, placeholders, byTarget), b, InsertValues(cols))} ::
      a < b &&
      At(MergeSql(table, keys, cols, placeholders, byTarget), a, ")) AS s " + ColumnList(cols) + ") AS Source ") &&
      At(MergeSql(table, keys, cols, placeholders, byTarget), b, InsertValues(cols))
  {
    var base := |MergePrefix(table)| + |placeholders|;
    AliasAt(table, keys, cols, placeholders, byTarget);
    InsertValuesAt(table, keys, cols, placeholders, byTarget);
    var b := base + |UsingTail(cols) + OnClause(keys)| + |Indent12 + NotMatched(byTarget)| + |Indent16|;
    assert base < b;
  }
}
