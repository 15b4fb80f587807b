/**
 * The literal-substitution paths of queries_tenax_db.py: `upsert_tbl_sa`, which
 * numbers its placeholders `?0, ?1, ...` and replaces them row by row with
 * rendered values, and `insert_tbl_sa`, which renders `;`-packed values into the
 * `?` of the INSERT text. The SQL itself is executed by the database driver; here
 * the statements a row produces are the result.
 */
module QueriesTenax {
  import opened Text
  import opened Fragments

  /** One cell of `df.values.tolist()`. */
  datatype Cell =
    | Str(s: string)       // a Python str
    | Int(i: int)          // a Python int
    | Null                 // None
    | Shown(text: string)  // any other value (float, bool, timestamp, NaN), by its str() text

  // ---------------------------------------------------------------- upsert_tbl_sa

  /** `f'?{i}'` */
  function Placeholder(i: nat): (r: string)
    ensures |r| >= 2 && r[0] == '?' && r[1..] == NatToString(i)
    ensures forall k :: 1 <= k < |r| ==> '0' <= r[k] <= '9'
  {
    "?" + NatToString(i)
  }

  /** The list the append loop builds: `['?0', '?1', ..., '?{n-1}']`. */
  function PlaceholderNames(n: nat): (r: seq<string>)
    ensures |r| == n && forall i :: 0 <= i < n ==> r[i] == Placeholder(i)
  {
    seq(n, i requires 0 <= i => Placeholder(i))
  }

  /** No `?` of the text is followed by a digit, so no placeholder `?{i}` occurs in
      it. Text without any `?` qualifies, and so do `'Why?'` and `'x?a=1'`. */
  predicate NoMarker(v: string)
    decreases |v|
  {
    |v| < 2 || (!(v[0] == '?' && '0' <= v[1] <= '9') && NoMarker(v[1..]))
  }

  predicate NoMarkers(vals: seq<string>)
  {
    forall i :: 0 <= i < |vals| ==> NoMarker(vals[i])
  }

  /** The MERGE text of `upsert_tbl_sa`, before any row is substituted. */
  function LiteralTemplate(table: string, keys: seq<string>, cols: seq<string>): string
  {
    MergeSql(table, keys, cols, Join(", ", PlaceholderNames(|cols|)), true)
  }

  /** The text a cell is substituted as: a str in single quotes, embedded quotes
      left as they are; anything else by its `str()` text (None as `None`). */
  function Literal(c: Cell): (r: string)
    ensures c.Str? ==> |r| == |c.s| + 2 && r[1..|r| - 1] == c.s
    ensures c.Str? ==> r[0] == '\'' && r[|r| - 1] == '\''
    ensures c.Str? ==> Count(r, '\'') == Count(c.s, '\'') + 2
    ensures c.Null? ==> r == "None"
  {
    match c
    case Str(s) =>
      CountConcat("'", s, '\'');
      CountConcat("'" + s, "'", '\'');
      "'" + s + "'"
    case Int(i) => IntToString(i)
    case Null => "None"
    case Shown(t) => t
  }

  function Literals(row: seq<Cell>): (r: seq<string>)
    ensures |r| == |row| && forall i :: 0 <= i < |row| ==> r[i] == Literal(row[i])
  {
    seq(|row|, i requires 0 <= i < |row| => Literal(row[i]))
  }

  /** The append loop of `upsert_tbl_sa` and the repr stripping after it. */
  method IndexedPlaceholders(n: nat) returns (text: string)
    ensures text == Join(", ", PlaceholderNames(n))
  {
    var list: seq<string> := [];
    for i := 0 to n
      invariant list == PlaceholderNames(i)
    {
      list := list + [Placeholder(i)];
    }
    PlaceholderNamesPlain(n);
    StripListRepr(list);
    text := StripRepr(ListRepr(list));
  }

  /** Placeholders hold only `?` and digits. */
  lemma PlaceholderNamesPlain(n: nat)
    ensures Free('[', PlaceholderNames(n)) && Free(']', PlaceholderNames(n))
    ensures Free('\'', PlaceholderNames(n)) && Free(',', PlaceholderNames(n))
  {
    forall i | 0 <= i < n
      ensures '[' !in Placeholder(i) && ']' !in Placeholder(i)
      ensures '\'' !in Placeholder(i) && ',' !in Placeholder(i)
    {
      var p := Placeholder(i);
      assert forall k :: 0 <= k < |p| ==> p[k] == '?' || '0' <= p[k] <= '9';
    }
  }

  /** The indexed placeholder text reads back, split on `, `, as `?0 ... ?{n-1}`. */
  lemma IndexedPlaceholdersShape(n: nat)
    ensures n == 0 <==> Join(", ", PlaceholderNames(n)) == ""
    ensures n >= 1 ==> SplitOn(Join(", ", PlaceholderNames(n)), ", ") == PlaceholderNames(n)
  {
    if n >= 1 {
      PlaceholderNamesPlain(n);
      SplitJoin(PlaceholderNames(n), ", ");
      assert |Join(", ", PlaceholderNames(n))| > 0;
    }
  }

  /** `?{i}` is a prefix of `?{j}` exactly when the digits of i are a prefix of
      those of j: `?1` is a prefix of `?10` .. `?19`. */
  lemma PlaceholderPrefix(i: nat, j: nat)
    ensures Placeholder(i) <= Placeholder(j) <==> NatToString(i) <= NatToString(j)
  {
    var a, b := NatToString(i), NatToString(j);
    assert Placeholder(i) == ['?'] + a && Placeholder(j) == ['?'] + b;
    if a <= b {
      assert Placeholder(j)[..|Placeholder(i)|] == ['?'] + b[..|a|];
    }
    if Placeholder(i) <= Placeholder(j) {
      assert a == Placeholder(i)[1..] && b[..|a|] == Placeholder(j)[1..|Placeholder(i)|];
    }
  }

  /** The names the append loop produces are pairwise distinct: each column has a
      placeholder of its own. */
  lemma PlaceholderNamesDistinct(n: nat)
    ensures forall i, j :: 0 <= i < n && 0 <= j < n && i != j ==> PlaceholderNames(n)[i] != PlaceholderNames(n)[j]
  {
    forall i, j | 0 <= i < n && 0 <= j < n && PlaceholderNames(n)[i] == PlaceholderNames(n)[j]
      ensures i == j
    {
      PlaceholderPrefix(i, j);
      DigitsPrefix(i, j);
      assert NatToString(i) == Placeholder(i)[1..] == Placeholder(j)[1..] == NatToString(j);
    }
  }

  /** The SQL after the placeholders `?0 .. ?{k-1}` have been replaced, in
      ascending index order, each with replace-all semantics. Text in which no `?`
      is followed by a digit passes through unchanged. */
  function RenderUpTo(sql: string, vals: seq<string>, k: nat): (r: string)
    requires k <= |vals|
    ensures NoMarker(sql) ==> r == sql
  {
    if k == 0 then sql
    else
      var prev := RenderUpTo(sql, vals, k - 1);
      Unmarked(prev, k - 1, vals[k - 1]);
      ReplaceAll(prev, Placeholder(k - 1), vals[k - 1])
  }

  /** The inner loop of `upsert_tbl_sa` for one row. */
  method RenderRow(sql: string, row: seq<Cell>) returns (line: string)
    ensures line == RenderUpTo(sql, Literals(row), |row|)
  {
    line := sql;
    for i := 0 to |row|
      invariant line == RenderUpTo(sql, Literals(row), i)
    {
      var param := Literal(row[i]);
      line := ReplaceAll(line, Placeholder(i), param);
    }
  }

  /** The outer loop of `upsert_tbl_sa`: one statement per row, in row order. */
  method RenderRows(sql: string, rows: seq<seq<Cell>>) returns (stmts: seq<string>)
    ensures |stmts| == |rows|
    ensures forall r :: 0 <= r < |rows| ==> stmts[r] == RenderUpTo(sql, Literals(rows[r]), |rows[r]|)
  {
    stmts := [];
    for r := 0 to |rows|
      invariant |stmts| == r
      invariant forall q {:trigger stmts[q]} :: 0 <= q < r ==> stmts[q] == RenderUpTo(sql, Literals(rows[q]), |rows[q]|)
    {
      var line := RenderRow(sql, rows[r]);
      stmts := stmts + [line];
    }
  }

  /** `upsert_tbl_sa` without the database: the statement of each row, in row
      order (each is then run in its own transaction). With at most ten columns,
      names free of `?` and rendered values in which no `?` is followed by a
      digit, a row of one value per column gives the MERGE text with its values in
      column order; `ElevenColumnsMisrender` shows what wider rows give. */
  method UpsertSaStatements(table: string, keys: seq<string>, cols: seq<string>, rows: seq<seq<Cell>>)
    returns (stmts: seq<string>)
    ensures |stmts| == |rows|
    ensures forall r :: 0 <= r < |rows| ==>
      stmts[r] == RenderUpTo(LiteralTemplate(table, keys, cols), Literals(rows[r]), |rows[r]|)
    ensures '?' !in table && Free('?', keys) && Free('?', cols) && |cols| <= 10 ==>
      forall r :: 0 <= r < |rows| && |rows[r]| == |cols| && NoMarkers(Literals(rows[r])) ==>
        stmts[r] == MergeSql(table, keys, cols, Join(", ", Literals(rows[r])), true)
  {
    var sql := UpsertTemplate(table, keys, cols);
    stmts := RenderRows(sql, rows);
    if '?' !in table && Free('?', keys) && Free('?', cols) && |cols| <= 10 {
      forall r | 0 <= r < |rows| && |rows[r]| == |cols| && NoMarkers(Literals(rows[r]))
        ensures stmts[r] == MergeSql(table, keys, cols, Join(", ", Literals(rows[r])), true)
      {
        RenderRowFillsValues(table, keys, cols, Literals(rows[r]));
      }
    }
  }

  /** `upsert_tbl_sa` with the corrected order of `RenderRowCorrected`: a row of one
      value per column gives the MERGE text with its values in column order,
      whatever the number of columns. */
  method UpsertSaStatementsCorrected(table: string, keys: seq<string>, cols: seq<string>, rows: seq<seq<Cell>>)
    returns (stmts: seq<string>)
    ensures |stmts| == |rows|
    ensures forall r :: 0 <= r < |rows| ==>
      stmts[r] == RenderDownFrom(LiteralTemplate(table, keys, cols), Literals(rows[r]), |rows[r]|)
    ensures '?' !in table && Free('?', keys) && Free('?', cols) ==>
      forall r :: 0 <= r < |rows| && |rows[r]| == |cols| && NoMarkers(Literals(rows[r])) ==>
        stmts[r] == MergeSql(table, keys, cols, Join(", ", Literals(rows[r])), true)
  {
    var sql := UpsertTemplate(table, keys, cols);
    stmts := RenderRowsCorrected(sql, rows);
    if '?' !in table && Free('?', keys) && Free('?', cols) {
      forall r | 0 <= r < |rows| && |rows[r]| == |cols| && NoMarkers(Literals(rows[r]))
        ensures stmts[r] == MergeSql(table, keys, cols, Join(", ", Literals(rows[r])), true)
      {
        DescendingFillsValues(table, keys, cols, Literals(rows[r]));
      }
    }
  }

  /** The outer loop of `upsert_tbl_sa` with the corrected inner loop: one
      statement per row, in row order. */
  method RenderRowsCorrected(sql: string, rows: seq<seq<Cell>>) returns (stmts: seq<string>)
    ensures |stmts| == |rows|
    ensures forall r :: 0 <= r < |rows| ==> stmts[r] == RenderDownFrom(sql, Literals(rows[r]), |rows[r]|)
  {
    stmts := [];
    for r := 0 to |rows|
      invariant |stmts| == r
      invariant forall q {:trigger stmts[q]} :: 0 <= q < r ==> stmts[q] == RenderDownFrom(sql, Literals(rows[q]), |rows[q]|)
    {
      var line := RenderRowCorrected(sql, rows[r]);
      stmts := stmts + [line];
    }
  }

  /** The statement `upsert_tbl_sa` formats once, before the rows: the MERGE
      template with the indexed placeholders `?0, ..., ?{n-1}` as its values. */
  method UpsertTemplate(table: string, keys: seq<string>, cols: seq<string>) returns (sql: string)
    ensures sql == LiteralTemplate(table, keys, cols)
  {
    var columnsParams := IndexedPlaceholders(|cols|);
    sql := MergeSql(table, keys, cols, columnsParams, true);
  }

  /** The inner loop of `upsert_tbl_sa` with the corrected order: `?{n-1}` first,
      `?0` last. */
  method RenderRowCorrected(sql: string, row: seq<Cell>) returns (line: string)
    ensures line == RenderDownFrom(sql, Literals(row), |row|)
  {
    ghost var vals := Literals(row);
    ghost var target := RenderDownFrom(sql, vals, |row|);
    line := sql;
    var i: nat := |row|;
    while i > 0
      invariant i <= |row|
      invariant RenderDownFrom(line, vals, i) == target
    {
      i := i - 1;
      assert vals[i] == Literal(row[i]);
      line := ReplaceAll(line, Placeholder(i), Literal(row[i]));
    }
  }

  // ---- how the substitution acts on the pieces of the text

  /** Text in which no `?` is followed by a digit is left alone by the replacement
      of a placeholder. */
  lemma {:induction false} Unmarked(v: string, i: nat, x: string)
    ensures NoMarker(v) ==> ReplaceAll(v, Placeholder(i), x) == v
    decreases |v|
  {
    var p := Placeholder(i);
    if NoMarker(v) && |v| >= |p| {
      assert v[..|p|] != p by {
        assert v[..|p|][1] == v[1] && '0' <= p[1] <= '9';
      }
      Unmarked(v[1..], i, x);
      assert [v[0]] + v[1..] == v;
    }
  }

  /** Text without `?` has no `?` followed by a digit. */
  lemma {:induction false} QuestionFree(v: string)
    requires '?' !in v
    ensures NoMarker(v)
    decreases |v|
  {
    if |v| >= 2 {
      assert v[0] in v;
      QuestionFree(v[1..]);
    }
  }

  lemma {:induction false} NoMarkerConcat(a: string, b: string)
    requires NoMarker(a) && NoMarker(b)
    requires |a| > 0 && |b| > 0 && a[|a| - 1] == '?' ==> !('0' <= b[0] <= '9')
    ensures NoMarker(a + b)
    decreases |a|
  {
    var s := a + b;
    if |a| == 1 {
      assert s[1..] == b;
      if |s| >= 2 {
        assert s[0] == a[0] && s[1] == b[0];
      }
    } else if |a| >= 2 {
      assert s[0] == a[0] && s[1] == a[1] && s[1..] == a[1..] + b;
      NoMarkerConcat(a[1..], b);
    } else {
      assert s == b;
    }
  }

  lemma {:induction false} NoMarkerJoin(vals: seq<string>)
    requires NoMarkers(vals)
    ensures NoMarker(Join(", ", vals))
    decreases |vals|
  {
    if |vals| == 1 {
      assert NoMarker(vals[0]);
    } else if |vals| > 1 {
      var rest := Join(", ", vals[1..]);
      assert NoMarkers(vals[1..]) by {
        forall i | 0 <= i < |vals[1..]| ensures NoMarker(vals[1..][i]) {
          assert vals[1..][i] == vals[i + 1];
        }
      }
      NoMarkerJoin(vals[1..]);
      QuestionFree(", ");
      NoMarkerConcat(", ", rest);
      assert NoMarker(vals[0]);
      NoMarkerConcat(vals[0], ", " + rest);
      JoinCons(", ", vals);
    }
  }

  /** A value list framed by text without `?` whose closing part does not start
      with a digit has no `?` followed by a digit. */
  lemma FilledUnmarked(pre: string, vals: seq<string>, post: string)
    requires '?' !in pre && '?' !in post && NoMarkers(vals)
    requires post == [] || !('0' <= post[0] <= '9')
    ensures NoMarker(pre + Join(", ", vals) + post)
  {
    QuestionFree(pre);
    QuestionFree(post);
    NoMarkerJoin(vals);
    NoMarkerConcat(pre, Join(", ", vals));
    NoMarkerConcat(pre + Join(", ", vals), post);
  }

  /** Steps k0 .. k-1 leave the text alone when none of their placeholders occurs
      in what step k0 left. */
  lemma {:induction false} RenderSettled(s: string, vals: seq<string>, k0: nat, k: nat)
    requires k0 <= k <= |vals|
    requires forall i :: k0 <= i < k ==>
      ReplaceAll(RenderUpTo(s, vals, k0), Placeholder(i), vals[i]) == RenderUpTo(s, vals, k0)
    ensures RenderUpTo(s, vals, k) == RenderUpTo(s, vals, k0)
    decreases k
  {
    if k > k0 {
      RenderSettled(s, vals, k0, k - 1);
    }
  }

  /** A value can be followed by `0` without giving rise to any placeholder other
      than `?0`: no `str(i)` with i >= 1 starts with `0`. */
  lemma {:induction false} ZeroTailUntouched(v: string, i: nat, x: string)
    requires NoMarker(v) && i >= 1
    ensures ReplaceAll(v + "0", Placeholder(i), x) == v + "0"
    decreases |v|
  {
    var s, p := v + "0", Placeholder(i);
    NoLeadingZero(i);
    assert p[1] == NatToString(i)[0] != '0';
    if v != [] && |s| >= |p| {
      assert s[..|p|] != p by {
        assert s[..|p|][1] == s[1];
        if |v| == 1 {
          assert s[1] == '0';
        } else {
          assert s[0] == v[0] && s[1] == v[1];
        }
      }
      assert s[1..] == v[1..] + "0";
      ZeroTailUntouched(v[1..], i, x);
      assert [s[0]] + s[1..] == s;
    }
  }

  /** Substitution acts on each element of a `, `-joined list on its own: no
      placeholder spans a `, `. */
  lemma {:induction false} RenderJoin(ts: seq<string>, vals: seq<string>, k: nat)
    requires k <= |vals|
    ensures RenderUpTo(Join(", ", ts), vals, k) ==
            Join(", ", seq(|ts|, i requires 0 <= i < |ts| => RenderUpTo(ts[i], vals, k)))
  {
    if k == 0 {
      assert seq(|ts|, i requires 0 <= i < |ts| => RenderUpTo(ts[i], vals, 0)) == ts;
    } else {
      var prev := seq(|ts|, i requires 0 <= i < |ts| => RenderUpTo(ts[i], vals, k - 1));
      RenderJoin(ts, vals, k - 1);
      var p := Placeholder(k - 1);
      assert ',' !in p && '?' !in ", ";
      ReplaceJoin(", ", prev, p, vals[k - 1]);
      assert ReplaceEach(prev, p, vals[k - 1]) ==
             seq(|ts|, i requires 0 <= i < |ts| => RenderUpTo(ts[i], vals, k));
    }
  }

  /** Text before and after the placeholder list passes through unchanged when it
      holds no `?` and does not start with a digit. */
  lemma {:induction false} RenderFrame(pre: string, m: string, post: string, vals: seq<string>, k: nat)
    requires k <= |vals| && '?' !in pre && '?' !in post
    requires post == [] || !('0' <= post[0] <= '9')
    ensures RenderUpTo(pre + m + post, vals, k) == pre + RenderUpTo(m, vals, k) + post
  {
    if k > 0 {
      RenderFrame(pre, m, post, vals, k - 1);
      var x, p, v := RenderUpTo(m, vals, k - 1), Placeholder(k - 1), vals[k - 1];
      assert post != [] ==> post[0] !in p;
      ReplaceConcat(pre + x, post, p, v);
      ReplaceSkip(pre, x, p, v);
      ReplaceAbsent(post, p, v);
    }
  }

  /** A character in neither the text nor any value is in no step's result. */
  lemma {:induction false} RenderKeepsOut(s: string, vals: seq<string>, k: nat, c: char)
    requires k <= |vals| && c !in s && Free(c, vals)
    ensures c !in RenderUpTo(s, vals, k)
  {
    if k > 0 {
      RenderKeepsOut(s, vals, k - 1, c);
      ReplaceKeepsOut(RenderUpTo(s, vals, k - 1), Placeholder(k - 1), vals[k - 1], c);
    }
  }

  /** The fate of the single placeholder `?j` when the first k placeholders are
      substituted: untouched until step j, then the value j, provided no earlier
      `?i` is a prefix of it. */
  lemma {:induction false} RenderToken(j: nat, vals: seq<string>, k: nat)
    requires j < |vals| && k <= |vals| && NoMarkers(vals)
    requires forall i :: 0 <= i < k && i < j ==> !(NatToString(i) <= NatToString(j))
    ensures RenderUpTo(Placeholder(j), vals, k) == if k <= j then Placeholder(j) else vals[j]
  {
    if k > 0 {
      RenderToken(j, vals, k - 1);
      var p := Placeholder(k - 1);
      var pj := Placeholder(j);
      var prev := RenderUpTo(pj, vals, k - 1);
      assert RenderUpTo(pj, vals, k) == ReplaceAll(prev, p, vals[k - 1]);
      if k - 1 < j {
        TokenKept(k - 1, j, vals[k - 1]);
      } else if k - 1 == j {
        TokenFilled(j, vals[j]);
      } else {
        assert prev == vals[j] && NoMarker(vals[j]);
        Unmarked(vals[j], k - 1, vals[k - 1]);
      }
    }
  }

  lemma TokenKept(i: nat, j: nat, x: string)
    requires !(NatToString(i) <= NatToString(j))
    ensures ReplaceAll(Placeholder(j), Placeholder(i), x) == Placeholder(j)
  {
    PlaceholderPrefix(i, j);
    ReplaceHead(Placeholder(j), Placeholder(i), x);
  }

  lemma TokenFilled(j: nat, x: string)
    ensures ReplaceAll(Placeholder(j), Placeholder(j), x) == x
  {
    var p := Placeholder(j);
    ReplaceHead(p, p, x);
    assert p[|p|..] == [];
  }

  /** With at most ten columns no placeholder is a prefix of another. */
  lemma SingleDigitsDistinct(n: nat)
    requires n <= 10
    ensures forall i, j :: 0 <= i < j < n ==> !(NatToString(i) <= NatToString(j))
  {
    forall i, j | 0 <= i < j < n ensures !(NatToString(i) <= NatToString(j)) {
      if NatToString(i) <= NatToString(j) {
        DigitsPrefix(i, j);
      }
    }
  }

  /** The MERGE text after its opening `(VALUES (` starts with `)`, not a digit. */
  lemma SuffixOpens(keys: seq<string>, cols: seq<string>, byTarget: bool)
    ensures |MergeSuffix(keys, cols, byTarget)| > 0 && MergeSuffix(keys, cols, byTarget)[0] == ')'
  {
    var u := UsingTail(cols);
    assert u[0] == ')';
    assert MergeSuffix(keys, cols, byTarget) == u + (OnClause(keys) + InsertClause(cols, byTarget) + UpdateClause(cols));
  }

  /** The literal template is the placeholder list framed by text without `?`
      whose closing part starts with `)`. */
  lemma TemplateFrame(table: string, keys: seq<string>, cols: seq<string>)
    requires '?' !in table && Free('?', keys) && Free('?', cols)
    ensures LiteralTemplate(table, keys, cols) ==
            MergePrefix(table) + Join(", ", PlaceholderNames(|cols|)) + MergeSuffix(keys, cols, true)
    ensures '?' !in MergePrefix(table) && '?' !in MergeSuffix(keys, cols, true)
    ensures MergeSuffix(keys, cols, true)[0] == ')'
  {
    MergeFrameFree(table, keys, cols, true);
    SuffixOpens(keys, cols, true);
  }

  /** The value each slot of the placeholder list receives in ascending order. */
  function AscendingSlots(vals: seq<string>): (r: seq<string>)
    ensures |r| == |vals|
  {
    seq(|vals|, i requires 0 <= i < |vals| => RenderUpTo(Placeholder(i), vals, |vals|))
  }

  /** Ascending substitution into a placeholder list framed by text without `?`:
      each slot is rendered on its own. */
  lemma AscendingFramed(pre: string, post: string, vals: seq<string>)
    requires '?' !in pre && '?' !in post
    requires post == [] || !('0' <= post[0] <= '9')
    ensures RenderUpTo(pre + Join(", ", PlaceholderNames(|vals|)) + post, vals, |vals|) ==
            pre + Join(", ", AscendingSlots(vals)) + post
  {
    var n := |vals|;
    var ts := PlaceholderNames(n);
    RenderFrame(pre, Join(", ", ts), post, vals, n);
    RenderJoin(ts, vals, n);
    assert seq(|ts|, i requires 0 <= i < |ts| => RenderUpTo(ts[i], vals, n)) == AscendingSlots(vals);
  }

  /** Up to ten values: each slot receives its own value. */
  lemma AscendingTokens(vals: seq<string>)
    requires |vals| <= 10 && NoMarkers(vals)
    ensures AscendingSlots(vals) == vals
  {
    SingleDigitsDistinct(|vals|);
    forall j | 0 <= j < |vals| ensures AscendingSlots(vals)[j] == vals[j] {
      RenderToken(j, vals, |vals|);
    }
  }

  /** What `upsert_tbl_sa` sends for a row of up to ten columns: the MERGE text with
      the values, rendered, in place of `?0, ..., ?{n-1}`, in column order, and no
      placeholder left over (names free of `?`, values without a `?` followed by a
      digit). */
  lemma RenderRowFillsValues(table: string, keys: seq<string>, cols: seq<string>, vals: seq<string>)
    requires |vals| == |cols| <= 10
    requires '?' !in table && Free('?', keys) && Free('?', cols) && NoMarkers(vals)
    ensures RenderUpTo(LiteralTemplate(table, keys, cols), vals, |vals|) ==
            MergeSql(table, keys, cols, Join(", ", vals), true)
    ensures NoMarker(RenderUpTo(LiteralTemplate(table, keys, cols), vals, |vals|))
  {
    var pre, post := MergePrefix(table), MergeSuffix(keys, cols, true);
    TemplateFrame(table, keys, cols);
    AscendingFramed(pre, post, vals);
    AscendingTokens(vals);
    FilledUnmarked(pre, vals, post);
  }

  // ---- the eleventh column, and the corrected order

  lemma TenAfterOne()
    ensures NatToString(0) == "0" && NatToString(1) == "1" && NatToString(10) == "10"
    ensures Placeholder(10) == "?10" && Placeholder(1) == "?1" && Placeholder(0) == "?0"
  {
    assert NatToString(10) == NatToString(1) + [DigitChar(0)];
  }

  /** In ascending order `?10` is first rewritten by `?1`. */
  lemma SecondValueTakesTenth(vals: seq<string>)
    requires |vals| >= 11 && NoMarkers(vals)
    ensures RenderUpTo(Placeholder(10), vals, |vals|) == vals[1] + "0"
  {
    TenAfterOne();
    var t := Placeholder(10);
    assert "?10"[..2] == "?1" && "?1" != "?0";
    ReplaceHead(t, Placeholder(0), vals[0]);
    assert RenderUpTo(t, vals, 1) == "?10";
    ReplaceHead("?10", "?1", vals[1]);
    assert RenderUpTo(t, vals, 2) == vals[1] + "0";
    assert NoMarker(vals[1]);
    forall i | 2 <= i < |vals|
      ensures ReplaceAll(RenderUpTo(t, vals, 2), Placeholder(i), vals[i]) == RenderUpTo(t, vals, 2)
    {
      ZeroTailUntouched(vals[1], i, vals[i]);
    }
    RenderSettled(t, vals, 2, |vals|);
  }

  /** Whatever the width, the first ten placeholders receive their own values. */
  lemma FirstTenTokens(vals: seq<string>)
    requires |vals| >= 10 && NoMarkers(vals)
    ensures forall j :: 0 <= j < 10 ==> AscendingSlots(vals)[j] == vals[j]
  {
    SingleDigitsDistinct(10);
    forall j | 0 <= j < 10 ensures AscendingSlots(vals)[j] == vals[j] {
      RenderToken(j, vals, |vals|);
    }
  }

  /** Framed lists with different elements differ when no element holds a `,`. */
  lemma FramedListsDiffer(pre: string, post: string, a: seq<string>, b: seq<string>)
    requires |a| >= 1 && |b| >= 1 && Free(',', a) && Free(',', b) && a != b
    ensures pre + Join(", ", a) + post != pre + Join(", ", b) + post
  {
    var x, y := Join(", ", a), Join(", ", b);
    if pre + x + post == pre + y + post {
      assert |x| == |y|;
      assert x == (pre + x + post)[|pre|..|pre| + |x|];
      assert y == (pre + y + post)[|pre|..|pre| + |y|];
      SplitJoin(a, ", ");
      SplitJoin(b, ", ");
    }
  }

  /** Slots hold no `,` when the values hold none. */
  lemma SlotsCommaFree(vals: seq<string>)
    requires Free(',', vals)
    ensures Free(',', AscendingSlots(vals))
  {
    forall i | 0 <= i < |vals| ensures ',' !in AscendingSlots(vals)[i] {
      var p := Placeholder(i);
      assert forall k :: 0 <= k < |p| ==> p[k] == '?' || '0' <= p[k] <= '9';
      RenderKeepsOut(p, vals, |vals|, ',');
    }
  }

  /** From the eleventh column on, the ascending slots start with the first ten
      values and then the second value followed by `0`. */
  lemma ElevenSlots(vals: seq<string>)
    requires |vals| >= 11 && NoMarkers(vals)
    ensures AscendingSlots(vals)[..10] == vals[..10] && AscendingSlots(vals)[10] == vals[1] + "0"
  {
    FirstTenTokens(vals);
    SecondValueTakesTenth(vals);
  }

  /** The misrendered list, framed, is not the intended one. */
  lemma SlotsDiffer(pre: string, post: string, vals: seq<string>)
    requires |vals| >= 11 && Free(',', vals) && AscendingSlots(vals)[10] != vals[10]
    ensures pre + Join(", ", AscendingSlots(vals)) + post != pre + Join(", ", vals) + post
  {
    SlotsCommaFree(vals);
    FramedListsDiffer(pre, post, AscendingSlots(vals), vals);
  }

  /** With eleven or more columns, replacing `?1` also rewrites the front of `?10`,
      so the eleventh value slot receives the second value followed by `0` (the
      first ten receive their own); whenever the eleventh value is anything else,
      the statement is not the intended one. */
  lemma ElevenColumnsMisrender(table: string, keys: seq<string>, cols: seq<string>, vals: seq<string>)
    requires |vals| == |cols| >= 11
    requires '?' !in table && Free('?', keys) && Free('?', cols) && NoMarkers(vals)
    ensures RenderUpTo(LiteralTemplate(table, keys, cols), vals, |vals|) ==
            MergeSql(table, keys, cols, Join(", ", AscendingSlots(vals)), true)
    ensures AscendingSlots(vals)[..10] == vals[..10] && AscendingSlots(vals)[10] == vals[1] + "0"
    ensures Free(',', vals) && vals[10] != vals[1] + "0" ==>
            RenderUpTo(LiteralTemplate(table, keys, cols), vals, |vals|) !=
            MergeSql(table, keys, cols, Join(", ", vals), true)
  {
    var pre, post := MergePrefix(table), MergeSuffix(keys, cols, true);
    TemplateFrame(table, keys, cols);
    AscendingFramed(pre, post, vals);
    ElevenSlots(vals);
    if Free(',', vals) && vals[10] != vals[1] + "0" {
      SlotsDiffer(pre, post, vals);
    }
  }

  /** The corrected substitution: placeholders replaced from the highest index
      down, so `?1x` is always gone before `?1` is replaced. Text in which no `?`
      is followed by a digit passes through unchanged. */
  function RenderDownFrom(sql: string, vals: seq<string>, k: nat): (r: string)
    requires k <= |vals|
    ensures NoMarker(sql) ==> r == sql
    decreases k
  {
    if k == 0 then sql
    else
      Unmarked(sql, k - 1, vals[k - 1]);
      RenderDownFrom(ReplaceAll(sql, Placeholder(k - 1), vals[k - 1]), vals, k - 1)
  }

  lemma {:induction false} RenderDownJoin(ts: seq<string>, vals: seq<string>, k: nat)
    requires k <= |vals|
    decreases k
    ensures RenderDownFrom(Join(", ", ts), vals, k) ==
            Join(", ", seq(|ts|, i requires 0 <= i < |ts| => RenderDownFrom(ts[i], vals, k)))
  {
    if k == 0 {
      assert seq(|ts|, i requires 0 <= i < |ts| => RenderDownFrom(ts[i], vals, 0)) == ts;
    } else {
      var p, v := Placeholder(k - 1), vals[k - 1];
      assert ',' !in p && '?' !in ", ";
      ReplaceJoin(", ", ts, p, v);
      var next := ReplaceEach(ts, p, v);
      RenderDownJoin(next, vals, k - 1);
      assert seq(|next|, i requires 0 <= i < |next| => RenderDownFrom(next[i], vals, k - 1)) ==
             seq(|ts|, i requires 0 <= i < |ts| => RenderDownFrom(ts[i], vals, k));
    }
  }

  lemma {:induction false} RenderDownFrame(pre: string, m: string, post: string, vals: seq<string>, k: nat)
    requires k <= |vals| && '?' !in pre && '?' !in post
    requires post == [] || !('0' <= post[0] <= '9')
    ensures RenderDownFrom(pre + m + post, vals, k) == pre + RenderDownFrom(m, vals, k) + post
    decreases k
  {
    if k > 0 {
      var p, v := Placeholder(k - 1), vals[k - 1];
      assert post != [] ==> post[0] !in p;
      ReplaceConcat(pre + m, post, p, v);
      ReplaceSkip(pre, m, p, v);
      ReplaceAbsent(post, p, v);
      RenderDownFrame(pre, ReplaceAll(m, p, v), post, vals, k - 1);
    }
  }

  /** In descending order `?j` is replaced by value j: every placeholder replaced
      before it has a larger index, so its text is not a prefix of `?j`. */
  lemma {:induction false} RenderDownToken(j: nat, vals: seq<string>, k: nat)
    requires j < k <= |vals| && NoMarkers(vals)
    ensures RenderDownFrom(Placeholder(j), vals, k) == vals[j]
  {
    var p, pj := Placeholder(k - 1), Placeholder(j);
    if k - 1 == j {
      ReplaceHead(pj, p, vals[j]);
      assert ReplaceAll(pj, p, vals[j]) == vals[j] by {
        assert pj[|p|..] == [];
        assert vals[j] + [] == vals[j];
      }
      assert NoMarker(vals[j]);
    } else {
      PlaceholderPrefix(k - 1, j);
      if NatToString(k - 1) <= NatToString(j) {
        DigitsPrefix(k - 1, j);
      }
      ReplaceHead(pj, p, vals[k - 1]);
      RenderDownToken(j, vals, k - 1);
    }
  }

  /** Descending substitution of any number of values into a framed list. */
  lemma DescendingFills(pre: string, post: string, vals: seq<string>)
    requires NoMarkers(vals) && '?' !in pre && '?' !in post
    requires post == [] || !('0' <= post[0] <= '9')
    ensures RenderDownFrom(pre + Join(", ", PlaceholderNames(|vals|)) + post, vals, |vals|) ==
            pre + Join(", ", vals) + post
  {
    var n := |vals|;
    var ts := PlaceholderNames(n);
    RenderDownFrame(pre, Join(", ", ts), post, vals, n);
    RenderDownJoin(ts, vals, n);
    DescendingTokens(vals);
    RenderedDownTokens(ts, vals, n, vals);
  }

  /** Any number of values: each placeholder of the list receives its own value. */
  lemma DescendingTokens(vals: seq<string>)
    requires NoMarkers(vals)
    ensures forall j :: 0 <= j < |vals| ==> RenderDownFrom(PlaceholderNames(|vals|)[j], vals, |vals|) == vals[j]
  {
    forall j | 0 <= j < |vals| ensures RenderDownFrom(Placeholder(j), vals, |vals|) == vals[j] {
      RenderDownToken(j, vals, |vals|);
    }
  }

  lemma RenderedDownTokens(ts: seq<string>, vals: seq<string>, n: nat, expected: seq<string>)
    requires n <= |vals| && |ts| == |expected|
    requires forall i :: 0 <= i < |ts| ==> RenderDownFrom(ts[i], vals, n) == expected[i]
    ensures seq(|ts|, i requires 0 <= i < |ts| => RenderDownFrom(ts[i], vals, n)) == expected
  {
  }

  /** With the corrected order every row of one value per column renders as
      intended, whatever the number of columns, as long as no value has a `?`
      followed by a digit; no placeholder is left over. */
  lemma DescendingFillsValues(table: string, keys: seq<string>, cols: seq<string>, vals: seq<string>)
    requires |vals| == |cols|
    requires '?' !in table && Free('?', keys) && Free('?', cols) && NoMarkers(vals)
    ensures RenderDownFrom(LiteralTemplate(table, keys, cols), vals, |vals|) ==
            MergeSql(table, keys, cols, Join(", ", vals), true)
    ensures NoMarker(RenderDownFrom(LiteralTemplate(table, keys, cols), vals, |vals|))
  {
    var pre, post := MergePrefix(table), MergeSuffix(keys, cols, true);
    TemplateFrame(table, keys, cols);
    DescendingFills(pre, post, vals);
    FilledUnmarked(pre, vals, post);
  }

  // ---------------------------------------------------------------- insert_tbl_sa

  /** A field of a packed value as it goes into the SQL: as it is when `float()`
      accepts it, otherwise in single quotes (embedded quotes left as they are).
      Python's float parser is not modelled: `isNumeric` says which texts it accepts. */
  function PieceLiteral(piece: string, isNumeric: string -> bool): (r: string)
    ensures isNumeric(piece) ==> r == piece
    ensures !isNumeric(piece) ==> |r| == |piece| + 2 && r[1..|r| - 1] == piece
    ensures !isNumeric(piece) ==> r[0] == '\'' && r[|r| - 1] == '\''
    ensures forall c :: c != '\'' && c !in piece ==> c !in r
  {
    if isNumeric(piece) then piece else "'" + piece + "'"
  }

  function PieceLiterals(pieces: seq<string>, isNumeric: string -> bool): (r: seq<string>)
    ensures |r| == |pieces| && forall i :: 0 <= i < |r| ==> r[i] == PieceLiteral(pieces[i], isNumeric)
  {
    seq(|pieces|, i requires 0 <= i < |pieces| => PieceLiteral(pieces[i], isNumeric))
  }

  /** A `;`-packed value rendered as a `, `-separated list of SQL literals. No `;`
      is left, and a value whose every field `float()` accepts is the value with
      each `;` turned into `, `. */
  function ParamLiteral(s: string, isNumeric: string -> bool): (r: string)
    ensures ';' !in r
    ensures (forall i :: 0 <= i < |SplitOn(s, ";")| ==> isNumeric(SplitOn(s, ";")[i])) ==>
            r == ReplaceAll(s, ";", ", ")
  {
    ParamLiteralFacts(s, isNumeric);
    Join(", ", PieceLiterals(SplitOn(s, ";"), isNumeric))
  }

  lemma ParamLiteralFacts(s: string, isNumeric: string -> bool)
    ensures ';' !in Join(", ", PieceLiterals(SplitOn(s, ";"), isNumeric))
    ensures (forall i :: 0 <= i < |SplitOn(s, ";")| ==> isNumeric(SplitOn(s, ";")[i])) ==>
            Join(", ", PieceLiterals(SplitOn(s, ";"), isNumeric)) == ReplaceAll(s, ";", ", ")
  {
    var pieces := SplitOn(s, ";");
    SplitPiecesFree(s, ';');
    JoinFree(", ", PieceLiterals(pieces, isNumeric), ';');
    NumericPiecesKept(pieces, isNumeric);
    ReplaceIsSplitJoin(s, ';', ", ");
  }

  lemma NumericPiecesKept(pieces: seq<string>, isNumeric: string -> bool)
    ensures (forall i :: 0 <= i < |pieces| ==> isNumeric(pieces[i])) ==> PieceLiterals(pieces, isNumeric) == pieces
  {
  }

  lemma LiteralsAre(xs: seq<string>, pieces: seq<string>, isNumeric: string -> bool)
    requires |xs| == |pieces|
    requires forall j :: 0 <= j < |xs| ==> xs[j] == PieceLiteral(pieces[j], isNumeric)
    ensures xs == PieceLiterals(pieces, isNumeric)
  {
  }

  /** The split, quote-in-place and join of one cell in `insert_tbl_sa`. */
  method PackedParam(param: string, isNumeric: string -> bool) returns (text: string)
    ensures text == ParamLiteral(param, isNumeric)
  {
    var pieces := SplitOn(param, ";");
    var newParams := new string[|pieces|](i requires 0 <= i < |pieces| => pieces[i]);
    for i := 0 to newParams.Length
      invariant forall j :: 0 <= j < i ==> newParams[j] == PieceLiteral(pieces[j], isNumeric)
      invariant forall j :: i <= j < newParams.Length ==> newParams[j] == pieces[j]
    {
      var value := newParams[i];
      if !isNumeric(value) {
        value := "'" + value + "'";
      }
      assert value == PieceLiteral(pieces[i], isNumeric);
      newParams[i] := value;
    }
    LiteralsAre(newParams[..], pieces, isNumeric);
    text := Join(", ", newParams[..]);
  }

  /** The rendered value never holds `;`, and holds `?` only if the cell did. */
  lemma ParamLiteralFree(s: string, isNumeric: string -> bool)
    ensures ';' !in ParamLiteral(s, isNumeric)
    ensures '?' !in s ==> '?' !in ParamLiteral(s, isNumeric)
  {
    var pieces := SplitOn(s, ";");
    SplitPiecesFree(s, ';');
    JoinFree(", ", PieceLiterals(pieces, isNumeric), ';');
    if '?' !in s {
      SplitPiecesInherit(s, ";", '?');
      JoinFree(", ", PieceLiterals(pieces, isNumeric), '?');
    }
  }

  /** Read back on `, `, the rendered value has one literal per packed field: one
      more than the cell has `;`. */
  lemma ParamLiteralShape(s: string, isNumeric: string -> bool)
    requires ',' !in s
    ensures SplitOn(ParamLiteral(s, isNumeric), ", ") == PieceLiterals(SplitOn(s, ";"), isNumeric)
    ensures |SplitOn(ParamLiteral(s, isNumeric), ", ")| == Count(s, ';') + 1
  {
    var pieces := SplitOn(s, ";");
    SplitPiecesInherit(s, ";", ',');
    SplitJoin(PieceLiterals(pieces, isNumeric), ", ");
    SplitCount(s, ';');
  }

  /** One statement step: `sql_line.replace('?', param).replace(';', ', ')`. No `;`
      survives a step, and a statement that holds neither `?` nor `;` is left as
      it is. */
  function SaStep(line: string, param: string): (r: string)
    ensures ';' !in r
    ensures '?' !in line && ';' !in line ==> r == line
  {
    var filled := ReplaceAll(line, "?", param);
    ReplaceRemoves(filled, ';', ", ");
    ReplaceIdle(line, "?", param);
    ReplaceIdle(filled, ";", ", ");
    ReplaceAll(filled, ";", ", ")
  }

  /** The statements executed for the text cells of one row, each step starting
      from the text the previous one produced. */
  function RowLines(line: string, texts: seq<string>, isNumeric: string -> bool): (r: seq<string>)
    ensures |r| == |texts|
    decreases |texts|
  {
    if texts == [] then []
    else
      var next := SaStep(line, ParamLiteral(texts[0], isNumeric));
      [next] + RowLines(next, texts[1..], isNumeric)
  }

  /** The texts of the leading str cells of a row: `param.split` fails on the first
      cell that is not a str. */
  function StrPrefix(row: seq<Cell>): (r: seq<string>)
    ensures |r| <= |row| && forall i :: 0 <= i < |r| ==> row[i] == Str(r[i])
    ensures |r| < |row| ==> !row[|r|].Str?
  {
    if row == [] || !row[0].Str? then [] else [row[0].s] + StrPrefix(row[1..])
  }

  /** The inner loops of `insert_tbl_sa` for one row: a statement executed per
      column, until a cell that is not a str raises. */
  method InsertSaRow(insert: string, row: seq<Cell>, isNumeric: string -> bool)
    returns (executed: seq<string>, failed: bool)
    ensures failed <==> |StrPrefix(row)| < |row|
    ensures executed == RowLines(insert, StrPrefix(row), isNumeric)
  {
    ghost var texts := StrPrefix(row);
    var sqlLine := insert;
    executed := [];
    failed := false;
    var i := 0;
    while i < |row| && !failed
      invariant 0 <= i <= |texts|
      invariant failed ==> i == |texts| < |row|
      invariant executed + RowLines(sqlLine, texts[i..], isNumeric) == RowLines(insert, texts, isNumeric)
      decreases |row| - i, if failed then 0 else 1
    {
      match row[i]
      case Str(s) =>
        assert i < |texts| && s == texts[i];
        var param := PackedParam(s, isNumeric);
        var next := SaStep(sqlLine, param);
        RowLoopStep(insert, texts, executed, sqlLine, i, isNumeric);
        sqlLine := next;
        executed := executed + [next];
        i := i + 1;
      case _ =>
        failed := true;
    }
    assert texts[i..] == [];
  }

  /** One turn of the loop of `InsertSaRow` keeps its invariant. */
  lemma RowLoopStep(insert: string, texts: seq<string>, executed: seq<string>, line: string, i: nat,
                    isNumeric: string -> bool)
    requires i < |texts|
    requires executed + RowLines(line, texts[i..], isNumeric) == RowLines(insert, texts, isNumeric)
    ensures var next := SaStep(line, ParamLiteral(texts[i], isNumeric));
            (executed + [next]) + RowLines(next, texts[i + 1..], isNumeric) == RowLines(insert, texts, isNumeric)
  {
    RowLinesStep(line, texts, i, isNumeric);
    var next := SaStep(line, ParamLiteral(texts[i], isNumeric));
    AppendShift(executed, next, RowLines(next, texts[i + 1..], isNumeric));
  }

  lemma AppendShift(front: seq<string>, x: string, back: seq<string>)
    ensures front + [x] + back == front + ([x] + back)
  {
  }

  lemma RowLinesStep(line: string, texts: seq<string>, i: nat, isNumeric: string -> bool)
    requires i < |texts|
    ensures RowLines(line, texts[i..], isNumeric) ==
            [SaStep(line, ParamLiteral(texts[i], isNumeric))] +
            RowLines(SaStep(line, ParamLiteral(texts[i], isNumeric)), texts[i + 1..], isNumeric)
  {
    assert texts[i..][0] == texts[i] && texts[i..][1..] == texts[i + 1..];
  }

  /** The statements `insert_tbl_sa` executes for a whole frame, and whether it
      stopped on a cell that is not a str. */
  function TableLines(insert: string, rows: seq<seq<Cell>>, isNumeric: string -> bool): (r: (seq<string>, bool))
    ensures r.1 <==> exists k :: 0 <= k < |rows| && |StrPrefix(rows[k])| < |rows[k]|
  {
    if rows == [] then ([], false)
    else
      var lines := RowLines(insert, StrPrefix(rows[0]), isNumeric);
      if |StrPrefix(rows[0])| < |rows[0]| then (lines, true)
      else
        var rest := TableLines(insert, rows[1..], isNumeric);
        assert forall k :: 1 <= k < |rows| ==> rows[k] == rows[1..][k - 1];
        (lines + rest.0, rest.1)
  }

  /** `insert_tbl_sa` without the database. */
  method InsertTblSa(table: string, cols: seq<string>, rows: seq<seq<Cell>>, isNumeric: string -> bool)
    returns (executed: seq<string>, failed: bool)
    ensures (executed, failed) == TableLines(InsertStatement(table, cols), rows, isNumeric)
  {
    var columns, params := ParamsGenericQuery(cols);
    var insert := InsertText(table, columns, params);
    assert insert == InsertStatement(table, cols);
    executed := [];
    failed := false;
    var r := 0;
    while r < |rows| && !failed
      invariant 0 <= r <= |rows|
      invariant !failed ==>
        executed + TableLines(insert, rows[r..], isNumeric).0 == TableLines(insert, rows, isNumeric).0 &&
        TableLines(insert, rows[r..], isNumeric).1 == TableLines(insert, rows, isNumeric).1
      invariant failed ==> (executed, failed) == TableLines(insert, rows, isNumeric)
      decreases |rows| - r, if failed then 0 else 1
    {
      var lines, rowFailed := InsertSaRow(insert, rows[r], isNumeric);
      TableLoopStep(insert, rows, r, executed, isNumeric);
      executed := executed + lines;
      failed := rowFailed;
      r := r + 1;
    }
    if !failed {
      assert rows[r..] == [];
      assert executed == TableLines(insert, rows, isNumeric).0;
    }
  }

  /** One turn of the loop of `InsertTblSa` keeps its invariant. */
  lemma TableLoopStep(insert: string, rows: seq<seq<Cell>>, r: nat, executed: seq<string>,
                      isNumeric: string -> bool)
    requires r < |rows|
    requires executed + TableLines(insert, rows[r..], isNumeric).0 == TableLines(insert, rows, isNumeric).0
    requires TableLines(insert, rows[r..], isNumeric).1 == TableLines(insert, rows, isNumeric).1
    ensures var lines := RowLines(insert, StrPrefix(rows[r]), isNumeric);
            if |StrPrefix(rows[r])| < |rows[r]| then (executed + lines, true) == TableLines(insert, rows, isNumeric)
            else (executed + lines) + TableLines(insert, rows[r + 1..], isNumeric).0 == TableLines(insert, rows, isNumeric).0 &&
                 TableLines(insert, rows[r + 1..], isNumeric).1 == TableLines(insert, rows, isNumeric).1
  {
    var lines := RowLines(insert, StrPrefix(rows[r]), isNumeric);
    assert rows[r..][0] == rows[r] && rows[r..][1..] == rows[r + 1..];
    if |StrPrefix(rows[r])| >= |rows[r]| {
      var rest := TableLines(insert, rows[r + 1..], isNumeric).0;
      assert executed + (lines + rest) == (executed + lines) + rest;
    }
  }

  /** Text before the VALUES list that holds no `c` passes through a replacement. */
  lemma InsertFrame(table: string, columns: string, params: string, c: char, r: string)
    requires (c == '?' || c == ';') && c !in table && c !in columns
    ensures ReplaceAll(InsertText(table, columns, params), [c], r) ==
            InsertText(table, columns, ReplaceAll(params, [c], r))
  {
    var head := "INSERT INTO " + table + columns + " VALUES ";
    assert c !in "INSERT INTO " && c !in " VALUES ";
    ReplaceSkip(head, params, [c], r);
  }

  /** Once a statement holds neither `?` nor `;`, later steps leave it as it is. */
  lemma {:induction false} SettledLines(line: string, texts: seq<string>, isNumeric: string -> bool)
    requires '?' !in line && ';' !in line
    ensures forall i :: 0 <= i < |texts| ==> RowLines(line, texts, isNumeric)[i] == line
    decreases |texts|
  {
    if texts != [] {
      SettledLines(line, texts[1..], isNumeric);
    }
  }

  /** Replacing `?` in the placeholder list puts the value in every slot. */
  lemma MarksFilled(n: nat, R: string)
    ensures ReplaceAll(ColumnList(Repeat("?", n)), "?", R) == ColumnList(Repeat(R, n))
  {
    var marks := Join(",", Repeat("?", n));
    assert ColumnList(Repeat("?", n)) == "(" + (marks + ")");
    ReplaceSkip("(", marks + ")", "?", R);
    ReplaceConcat(marks, ")", "?", R);
    ReplaceAbsent(")", "?", R);
    ReplaceJoin(",", Repeat("?", n), "?", R);
    assert ReplaceAll("?", "?", R) == R by {
      assert ReplaceAll("?", "?", R) == R + ReplaceAll([], "?", R);
      assert R + [] == R;
    }
    assert ReplaceEach(Repeat("?", n), "?", R) == Repeat(R, n);
  }

  /** The `;` replacement of the packed statement: the column name unpacks into a
      `, `-separated field list, the rest has no `;`. */
  lemma PackedSemicolons(table: string, c: string, R: string)
    requires ';' !in table && ';' !in R
    ensures ReplaceAll(InsertText(table, "(" + c + ")", "(" + R + ")"), ";", ", ") ==
            "INSERT INTO " + table + "(" + Join(", ", SplitOn(c, ";")) + ") VALUES (" + R + ")"
  {
    var B, M := "INSERT INTO " + table + "(", ") VALUES (";
    PackedRegroup(table, c, R);
    ReplaceConcat(B + c, M + R + ")", ";", ", ");
    ReplaceConcat(B, c, ";", ", ");
    assert ';' !in "INSERT INTO " && ';' !in M;
    ReplaceAbsent(B, ";", ", ");
    ReplaceIsSplitJoin(c, ';', ", ");
    ReplaceAbsent(M + R + ")", ";", ", ");
  }

  lemma PackedRegroup(table: string, c: string, R: string)
    ensures InsertText(table, "(" + c + ")", "(" + R + ")") ==
            ("INSERT INTO " + table + "(") + c + (") VALUES (" + R + ")")
  {
    assert ") VALUES (" == ")" + " VALUES " + "(";
  }

  /** The use `insert_tbl_sa` is built for: one column whose name packs the field
      names with `;`, and cells packing the values the same way. The one statement
      run names every field and gives one literal per packed value. */
  lemma PackedColumnStatement(table: string, c: string, v: string, isNumeric: string -> bool)
    requires '?' !in table && ';' !in table && '?' !in c
    ensures RowLines(InsertStatement(table, [c]), [v], isNumeric) ==
            ["INSERT INTO " + table + "(" + Join(", ", SplitOn(c, ";")) + ") VALUES (" +
             ParamLiteral(v, isNumeric) + ")"]
  {
    var R := ParamLiteral(v, isNumeric);
    ParamLiteralFree(v, isNumeric);
    var columns := "(" + c + ")";
    assert ColumnList([c]) == columns;
    InsertFrame(table, columns, ColumnList(Repeat("?", 1)), '?', R);
    MarksFilled(1, R);
    assert ColumnList(Repeat(R, 1)) == "(" + R + ")" by {
      assert Repeat(R, 1) == [R];
    }
    PackedSemicolons(table, c, R);
  }

  /** The whole run on a table of that one packed column: every row starts again
      from the INSERT text, so each row runs exactly one statement, in row order,
      naming every field and holding that row's literals, and the run does not fail. */
  lemma {:induction false} PackedColumnTable(table: string, c: string, rows: seq<seq<Cell>>,
                                             isNumeric: string -> bool)
    requires '?' !in table && ';' !in table && '?' !in c
    requires forall r :: 0 <= r < |rows| ==> |rows[r]| == 1 && rows[r][0].Str?
    ensures !TableLines(InsertStatement(table, [c]), rows, isNumeric).1
    ensures |TableLines(InsertStatement(table, [c]), rows, isNumeric).0| == |rows|
    ensures forall r :: 0 <= r < |rows| ==>
      TableLines(InsertStatement(table, [c]), rows, isNumeric).0[r] ==
      "INSERT INTO " + table + "(" + Join(", ", SplitOn(c, ";")) + ") VALUES (" +
      ParamLiteral(rows[r][0].s, isNumeric) + ")"
    decreases |rows|
  {
    if rows != [] {
      var insert := InsertStatement(table, [c]);
      var v := rows[0][0].s;
      assert StrPrefix(rows[0]) == [v];
      PackedColumnStatement(table, c, v, isNumeric);
      var tail := rows[1..];
      assert forall r :: 0 <= r < |tail| ==> tail[r] == rows[r + 1];
      PackedColumnTable(table, c, tail, isNumeric);
      var lines := TableLines(insert, rows, isNumeric).0;
      assert lines == RowLines(insert, [v], isNumeric) + TableLines(insert, tail, isNumeric).0;
    }
  }

  /** The first step of a row on the INSERT of several columns. */
  lemma FirstStepFillsAll(table: string, cols: seq<string>, R: string)
    requires '?' !in table && ';' !in table && Free('?', cols) && Free(';', cols)
    requires '?' !in R && ';' !in R
    ensures SaStep(InsertStatement(table, cols), R) ==
            InsertText(table, ColumnList(cols), ColumnList(Repeat(R, |cols|)))
    ensures '?' !in SaStep(InsertStatement(table, cols), R) && ';' !in SaStep(InsertStatement(table, cols), R)
  {
    var n, columns := |cols|, ColumnList(cols);
    var line := InsertText(table, columns, ColumnList(Repeat(R, n)));
    MarkStepFillsAll(table, cols, R);
    ColumnListFree(cols, '?');
    ColumnListFree(cols, ';');
    ColumnListFree(Repeat(R, n), '?');
    ColumnListFree(Repeat(R, n), ';');
    InsertTextFree(table, columns, ColumnList(Repeat(R, n)), '?');
    InsertTextFree(table, columns, ColumnList(Repeat(R, n)), ';');
    ReplaceAbsent(line, ";", ", ");
  }

  /** The `?` replacement of the first step puts the value in every slot. */
  lemma MarkStepFillsAll(table: string, cols: seq<string>, R: string)
    requires '?' !in table && Free('?', cols)
    ensures ReplaceAll(InsertStatement(table, cols), "?", R) ==
            InsertText(table, ColumnList(cols), ColumnList(Repeat(R, |cols|)))
  {
    ColumnListFree(cols, '?');
    MarksFilled(|cols|, R);
    InsertFrame(table, ColumnList(cols), ColumnList(Repeat("?", |cols|)), '?', R);
  }

  lemma ColumnListFree(names: seq<string>, c: char)
    requires (c == '?' || c == ';') && Free(c, names)
    ensures c !in ColumnList(names)
  {
    JoinFree(",", names, c);
  }

  lemma InsertTextFree(table: string, columns: string, params: string, c: char)
    requires (c == '?' || c == ';') && c !in table && c !in columns && c !in params
    ensures c !in InsertText(table, columns, params)
  {
    assert c !in "INSERT INTO " && c !in " VALUES ";
  }

  /** With several columns the first step fills every `?` with the first cell's
      value, so each statement of the row is that same statement, run once per
      column. */
  lemma ColumnsAllGetFirstValue(table: string, cols: seq<string>, texts: seq<string>, isNumeric: string -> bool)
    requires |texts| >= 1
    requires '?' !in table && ';' !in table && Free('?', cols) && Free(';', cols) && '?' !in texts[0]
    ensures forall i :: 0 <= i < |texts| ==>
      RowLines(InsertStatement(table, cols), texts, isNumeric)[i] ==
      InsertText(table, ColumnList(cols), ColumnList(Repeat(ParamLiteral(texts[0], isNumeric), |cols|)))
  {
    var R := ParamLiteral(texts[0], isNumeric);
    ParamLiteralFree(texts[0], isNumeric);
    FirstStepFillsAll(table, cols, R);
    SettledLines(SaStep(InsertStatement(table, cols), R), texts[1..], isNumeric);
  }
}
