/** The SQL fragment builders of the shared `db_util` class. The database
    layer's `get_in_or_equal`, which turns items into an `IN (...)` or `= ...`
    fragment with named parameters, is a function parameter. */
module DbUtil {
  import opened Php
  import opened PhpArray
  import Util

  /** `get_in_or_equal($items, SQL_PARAMS_NAMED, $prefix)`: the fragment and
      its named parameters. */
  type InOrEqual = (Value, string) -> (string, Entries)

  /** `sql_filter_params`: drops exactly the entries with an empty value. */
  function SqlFilterParams(params: Entries): (r: Entries)
    ensures forall e :: e in r <==> e in params && !Empty(e.val)
    ensures forall i :: 0 <= i < |r| ==> !Empty(r[i].val)
  {
    Filter(params, (e: Entry) => !Empty(e.val))
  }

  /** Filtering twice is filtering once. */
  lemma SqlFilterParamsIdempotent(params: Entries)
    ensures SqlFilterParams(SqlFilterParams(params)) == SqlFilterParams(params)
  {
    var once := SqlFilterParams(params);
    FilterKeepsAll(once);
  }

  lemma {:induction false} FilterKeepsAll(es: Entries)
    requires forall i :: 0 <= i < |es| ==> !Empty(es[i].val)
    ensures SqlFilterParams(es) == es
    decreases |es|
  {
    if |es| > 0 {
      FilterKeepsAll(es[1..]);
      assert [es[0]] + es[1..] == es;
    }
  }

  /** The text of each element of an array. */
  function Texts(es: Entries): seq<string> {
    Util.StrsOf(ValuesOf(es))
  }

  /** The opening of a where clause. */
  function WhereStart(withoutWordWhere: bool): string {
    if withoutWordWhere then "\n((" else "\nWHERE (("
  }

  /** `sql_where($where, $condition, $without_word_where)`: the conditions
      wrapped in parentheses and joined by the condition word, or "" when
      there are none. */
  function SqlWhere(where: Value, condition: string, withoutWordWhere: bool): (r: string)
    ensures Util.Val2Arr(where, true) == [] <==> r == ""
    ensures Util.Val2Arr(where, true) != [] ==>
              r == WhereStart(withoutWordWhere) + Join(") " + condition + " (", Texts(Util.Val2Arr(where, true))) + "))"
  {
    var list := Util.Val2Arr(where, true);
    if list == [] then "" else WhereStart(withoutWordWhere) + Join(") " + condition + " (", Texts(list)) + "))"
  }

  /** A single condition string is wrapped as a one-element list. */
  lemma SqlWhereOfOne(c: string, condition: string)
    requires c != "" && c != "0"
    ensures SqlWhere(Str(c), condition, false) == "\nWHERE ((" + c + "))"
    ensures SqlWhere(Str(c), condition, true) == "\n((" + c + "))"
  {
    assert Texts(List([Str(c)])) == [c];
  }

  /** Two conditions are joined by the condition word. */
  lemma SqlWhereOfTwo(a: string, b: string, condition: string)
    ensures SqlWhere(Arr(List([Str(a), Str(b)])), condition, false) ==
            "\nWHERE ((" + a + ") " + condition + " (" + b + "))"
  {
    assert Texts(List([Str(a), Str(b)])) == [a, b];
    assert Join(") " + condition + " (", [a, b]) == a + ") " + condition + " (" + b;
  }

  /** The bare form (without the word `WHERE`) differs from the full one
      only in its opening. */
  lemma SqlWhereWithWord(where: Value, condition: string)
    ensures SqlWhere(where, condition, true) == "" <==> SqlWhere(where, condition, false) == ""
    ensures SqlWhere(where, condition, true) != "" ==>
              SqlWhere(where, condition, false) == "\nWHERE " + SqlWhere(where, condition, true)[1..]
  {
    var list := Util.Val2Arr(where, true);
    if list != [] {
      var body := Join(") " + condition + " (", Texts(list)) + "))";
      assert SqlWhere(where, condition, true) == "\n((" + body;
      assert ("\n((" + body)[1..] == "((" + body;
    }
  }

  function SelectClause(select: Entries, alias: string): (r: string)
    ensures select == [] ==> r == "SELECT " + alias + ".*"
    ensures StartsWith(r, "SELECT ")
  {
    "SELECT " + (if select == [] then alias + ".*" else Join(", ", Texts(select)))
  }

  /** The `FROM` line followed by the joins, one per line. */
  function FromClause(table: string, alias: string, joins: Entries): (r: string)
    ensures joins == [] ==> r == "\nFROM {" + table + "} AS " + alias
  {
    var lines := ValuesOf(Merge(List([Str("\nFROM {" + table + "} AS " + alias)]), joins));
    if joins == [] then
      MergeLists([Str("\nFROM {" + table + "} AS " + alias)], []);
      assert [Str("\nFROM {" + table + "} AS " + alias)] + [] == [Str("\nFROM {" + table + "} AS " + alias)];
      Join("\n", Util.StrsOf(lines))
    else Join("\n", Util.StrsOf(lines))
  }

  /** A clause introduced by `word` when its list is not empty. */
  function OptionalClause(word: string, parts: Entries): (r: string)
    requires word != ""
    ensures parts == [] <==> r == ""
    ensures parts != [] ==> StartsWith(r, word)
  {
    if parts == [] then "" else word + Join(",", Texts(parts))
  }

  /** `sql_generate`: SELECT, FROM with joins, WHERE, GROUP BY, ORDER BY and
      LIMIT, in that order; each argument may be a string or a list. */
  function SqlGenerate(select: Value, joins: Value, table: string, alias: string,
                       where: Value, groupby: Value, orderby: Value, limit: Value): (r: string)
    ensures r == SelectClause(Util.Val2Arr(select, true), alias) +
                 FromClause(table, alias, Util.Val2Arr(joins, true)) +
                 SqlWhere(where, "AND", false) +
                 OptionalClause("\nGROUP BY ", Util.Val2Arr(groupby, true)) +
                 OptionalClause("\nORDER BY ", Util.Val2Arr(orderby, true)) +
                 OptionalClause("\nLIMIT ", Util.Val2Arr(limit, true))
  {
    var sel := SelectClause(Util.Val2Arr(select, true), alias);
    var from := FromClause(table, alias, Util.Val2Arr(joins, true));
    var w := SqlWhere(Arr(Util.Val2Arr(where, true)), "AND", false);
    assert w == SqlWhere(where, "AND", false) by {
      Util.Val2ArrIdempotent(where, true);
    }
    var g := OptionalClause("\nGROUP BY ", Util.Val2Arr(groupby, true));
    var o := OptionalClause("\nORDER BY ", Util.Val2Arr(orderby, true));
    var l := OptionalClause("\nLIMIT ", Util.Val2Arr(limit, true));
    sel + from + w + g + o + l
  }

  /** With nothing but a table and an alias, the query is `SELECT alias.*`
      and the `FROM` line. */
  lemma SqlGenerateMinimal(table: string, alias: string)
    ensures SqlGenerate(Arr([]), Arr([]), table, alias, Arr([]), Arr([]), Arr([]), Arr([])) ==
            "SELECT " + alias + ".*" + "\nFROM {" + table + "} AS " + alias
  {
    assert Util.Val2Arr(Arr([]), true) == [];
    var sel := "SELECT " + alias + ".*";
    var from := "\nFROM {" + table + "} AS " + alias;
    assert SqlWhere(Arr([]), "AND", false) == "";
    assert sel + from + "" + "" + "" + "" == sel + from;
  }

  /** A query with a condition, an order and a limit, clause by clause. */
  lemma SqlGenerateExample()
    ensures SqlGenerate(Arr([]), Arr([]), "t", "a", Str("a.u = 1"), Arr([]), Str("a.id"), Int(5)) ==
            "SELECT a.*" + "\nFROM {t} AS a" + "\nWHERE ((a.u = 1))" + "\nORDER BY a.id" + "\nLIMIT 5"
  {
    ExampleClauses();
    ExampleWhere();
    ExampleTail();
    var sel, from, w := "SELECT a.*", "\nFROM {t} AS a", "\nWHERE ((a.u = 1))";
    assert sel + from + w + "" == sel + from + w;
  }

  lemma ExampleClauses()
    ensures SelectClause(Util.Val2Arr(Arr([]), true), "a") == "SELECT a.*"
    ensures FromClause("t", "a", Util.Val2Arr(Arr([]), true)) == "\nFROM {t} AS a"
    ensures OptionalClause("\nGROUP BY ", Util.Val2Arr(Arr([]), true)) == ""
  {
    assert Util.Val2Arr(Arr([]), true) == [];
  }

  lemma ExampleWhere()
    ensures SqlWhere(Str("a.u = 1"), "AND", false) == "\nWHERE ((a.u = 1))"
  {
    SqlWhereOfOne("a.u = 1", "AND");
  }

  lemma ExampleTail()
    ensures OptionalClause("\nORDER BY ", Util.Val2Arr(Str("a.id"), true)) == "\nORDER BY a.id"
    ensures OptionalClause("\nLIMIT ", Util.Val2Arr(Int(5), true)) == "\nLIMIT 5"
  {
    assert Texts(List([Str("a.id")])) == ["a.id"];
    assert IntToStr(5) == "5";
    assert Texts(List([Int(5)])) == ["5"];
  }

  /** `sql_add_get_in_or_equal_options`: appends one condition to `$where`
      and merges the fragment's parameters into `$params`. */
  function SqlAddGetInOrEqualOptions(condName: string, items: Value, where: Entries, params: Entries,
                                     prefix: string, inOrEqual: InOrEqual): (r: (Entries, Entries))
    ensures r.0 == where + [Entry(IntKey(NextIndex(where)), Str(condName + " " + inOrEqual(items, prefix + "_").0))]
    ensures forall k: Key :: k.StrKey? && (Has(params, k) || Has(inOrEqual(items, prefix + "_").1, k)) ==> Has(r.1, k)
  {
    var (sql, colParams) := inOrEqual(items, prefix + "_");
    forall k: Key | k.StrKey? ensures Has(params, k) || Has(colParams, k) ==> Has(Merge(params, colParams), k) {
      MergeKeepsStringKeys(params, colParams, k);
    }
    (Push(where, Str(condName + " " + sql)), Merge(params, colParams))
  }

  /** `str_replace('.', '_', $column)`. */
  function DotsToUnderscores(s: string): (r: string)
    ensures |r| == |s| && '.' !in r
    ensures forall i :: 0 <= i < |s| ==> r[i] == (if s[i] == '.' then '_' else s[i])
  {
    seq(|s|, i requires 0 <= i < |s| => if s[i] == '.' then '_' else s[i])
  }

  /** A column of the options that yields a condition: present, and not an
      empty array. */
  predicate Usable(options: Entries, column: Value) {
    ToKey(column).Some? && Has(options, ToKey(column).value) &&
    !(At(options, ToKey(column).value).Arr? && At(options, ToKey(column).value).entries == [])
  }

  /** The usable columns, in their order. */
  function UsableColumns(options: Entries, columns: seq<Value>): (r: seq<Value>)
    ensures forall c :: c in r <==> c in columns && Usable(options, c)
    ensures |r| <= |columns|
    decreases |columns|
  {
    if |columns| == 0 then []
    else
      var rest := UsableColumns(options, columns[1..]);
      assert forall c :: c in columns <==> c == columns[0] || c in columns[1..];
      if Usable(options, columns[0]) then [columns[0]] + rest else rest
  }

  /** The condition `"$column $col_sql"` and the parameters one usable column
      gives, its placeholders prefixed with the prefix and the column (dots
      turned into underscores). */
  function ClauseOf(options: Entries, column: Value, prefix: string, inOrEqual: InOrEqual): (r: (string, Entries))
    requires ToKey(column).Some?
  {
    var name := ToStr(column);
    var (sql, ps) := inOrEqual(At(options, ToKey(column).value), prefix + "_" + DotsToUnderscores(name) + "_");
    (name + " " + sql, ps)
  }

  /** No column is usable exactly when the usable columns are none. */
  lemma {:induction false} NoUsableColumns(options: Entries, columns: seq<Value>)
    ensures (forall i :: 0 <= i < |columns| ==> !Usable(options, columns[i])) <==> UsableColumns(options, columns) == []
  {
    if UsableColumns(options, columns) == [] {
      forall i | 0 <= i < |columns| ensures !Usable(options, columns[i]) {
        assert columns[i] in columns;
      }
    } else {
      var c := UsableColumns(options, columns)[0];
      assert c in UsableColumns(options, columns);
      var i :| 0 <= i < |columns| && columns[i] == c;
    }
  }

  /** The condition and parameters for each usable column, in column order. */
  function Clauses(options: Entries, columns: seq<Value>, prefix: string, inOrEqual: InOrEqual): (r: seq<(string, Entries)>)
    ensures var us := UsableColumns(options, columns);
            |r| == |us| && forall i :: 0 <= i < |r| ==> ToKey(us[i]).Some? && r[i] == ClauseOf(options, us[i], prefix, inOrEqual)
    decreases |columns|
  {
    if |columns| == 0 then []
    else
      var rest := Clauses(options, columns[1..], prefix, inOrEqual);
      var col := columns[0];
      if !Usable(options, col) then
        assert UsableColumns(options, columns) == UsableColumns(options, columns[1..]);
        rest
      else
        assert UsableColumns(options, columns) == [col] + UsableColumns(options, columns[1..]);
        [ClauseOf(options, col, prefix, inOrEqual)] + rest
  }

  /** There are no clauses exactly when no column is usable, and never more
      clauses than columns. */
  lemma ClausesNone(options: Entries, columns: seq<Value>, prefix: string, inOrEqual: InOrEqual)
    ensures |Clauses(options, columns, prefix, inOrEqual)| <= |columns|
    ensures (forall i :: 0 <= i < |columns| ==> !Usable(options, columns[i])) <==> Clauses(options, columns, prefix, inOrEqual) == []
  {
    NoUsableColumns(options, columns);
  }

  /** `array_merge(...$lists)`. */
  function MergeMany(lists: seq<Entries>): Entries
    decreases |lists|
  {
    if |lists| == 0 then [] else Merge(MergeMany(lists[..|lists| - 1]), lists[|lists| - 1])
  }

  /** The columns to look at: the given ones, or the option keys. */
  function ColumnsOf(options: Entries, columns: Option<seq<Value>>): seq<Value> {
    if columns.Some? then columns.value
    else seq(|options|, i requires 0 <= i < |options| => KeyValue(options[i].key))
  }

  /** `sql_get_in_or_equal_options`: one condition per usable column, as a
      list or as a where clause, and the merged parameters; empty options or
      no usable column give an empty where and no parameters. */
  function SqlGetInOrEqualOptions(options: Entries, prefix: string, columns: Option<seq<Value>>,
                                  whereAsArray: bool, condition: string, withoutWordWhere: bool,
                                  inOrEqual: InOrEqual): (r: (Value, Entries))
    ensures whereAsArray ==> r.0.Arr? && r.0.entries == List(ValuesOf(r.0.entries))
    ensures var cs := Clauses(options, ColumnsOf(options, columns), prefix, inOrEqual);
            (options == [] || cs == []) <==> r.1 == [] && r.0 == (if whereAsArray then Arr([]) else Str(""))
    ensures var cs := Clauses(options, ColumnsOf(options, columns), prefix, inOrEqual);
            options != [] && cs != [] && whereAsArray ==>
              r.0 == Arr(List(seq(|cs|, i requires 0 <= i < |cs| => Str(cs[i].0))))
    ensures var cs := Clauses(options, ColumnsOf(options, columns), prefix, inOrEqual);
            options != [] && cs != [] && !whereAsArray ==>
              r.0 == Str(WhereStart(withoutWordWhere) +
                         Join(") " + condition + " (", seq(|cs|, i requires 0 <= i < |cs| => cs[i].0)) + "))")
    ensures var cs := Clauses(options, ColumnsOf(options, columns), prefix, inOrEqual);
            options != [] && cs != [] ==> r.1 == MergeMany(seq(|cs|, i requires 0 <= i < |cs| => cs[i].1))
  {
    var empty := (if whereAsArray then Arr([]) else Str(""), []);
    if options == [] then empty
    else
      var cs := Clauses(options, ColumnsOf(options, columns), prefix, inOrEqual);
      if cs == [] then empty
      else
        var where := List(seq(|cs|, i requires 0 <= i < |cs| => Str(cs[i].0)));
        var params := MergeMany(seq(|cs|, i requires 0 <= i < |cs| => cs[i].1));
        assert where != [];
        assert Texts(where) == seq(|cs|, i requires 0 <= i < |cs| => cs[i].0);
        var w := if whereAsArray then Arr(where) else Str(SqlWhere(Arr(where), condition, withoutWordWhere));
        (w, params)
  }

  /** The where clause as a string is the list form passed through
      `sql_where`; the parameters do not depend on the form. */
  lemma OptionsWhereForms(options: Entries, prefix: string, columns: Option<seq<Value>>,
                          condition: string, withoutWordWhere: bool, inOrEqual: InOrEqual)
    ensures var asList := SqlGetInOrEqualOptions(options, prefix, columns, true, condition, withoutWordWhere, inOrEqual);
            var asText := SqlGetInOrEqualOptions(options, prefix, columns, false, condition, withoutWordWhere, inOrEqual);
            asText == (Str(SqlWhere(asList.0, condition, withoutWordWhere)), asList.1)
  {
    var asList := SqlGetInOrEqualOptions(options, prefix, columns, true, condition, withoutWordWhere, inOrEqual);
    if asList.0 == Arr([]) {
      assert Util.Val2Arr(Arr([]), true) == [];
    }
  }

  /** The conditions `sql_get_in_or_equal_options` produces for the options,
      in column order. */
  function Conditions(options: Entries, columns: Option<seq<Value>>, prefix: string, inOrEqual: InOrEqual): (r: seq<Value>)
  {
    if options == [] then []
    else
      var cs := Clauses(options, ColumnsOf(options, columns), prefix, inOrEqual);
      seq(|cs|, i requires 0 <= i < |cs| => Str(cs[i].0))
  }

  /** `sql_get_in_or_equal_options_list`: the new conditions are appended to
      a list of conditions and the new parameters merged into the old ones. */
  function SqlGetInOrEqualOptionsList(options: Entries, where: Entries, params: Entries,
                                      columns: Option<seq<Value>>, prefix: string,
                                      inOrEqual: InOrEqual): (r: (Entries, Entries))
    ensures forall ws :: where == List(ws) ==> r.0 == List(ws + Conditions(options, columns, prefix, inOrEqual))
    ensures forall k: Key :: k.StrKey? && Has(params, k) ==> Has(r.1, k)
  {
    var (nw, np) := SqlGetInOrEqualOptions(options, prefix, columns, true, "AND", true, inOrEqual);
    var added := nw.entries;
    assert added == List(Conditions(options, columns, prefix, inOrEqual));
    forall ws | where == List(ws) ensures Merge(where, added) == List(ws + Conditions(options, columns, prefix, inOrEqual)) {
      MergeLists(ws, Conditions(options, columns, prefix, inOrEqual));
    }
    forall k: Key | k.StrKey? ensures Has(params, k) ==> Has(Merge(params, np), k) {
      MergeKeepsStringKeys(params, np, k);
    }
    (Merge(where, added), Merge(params, np))
  }
}
