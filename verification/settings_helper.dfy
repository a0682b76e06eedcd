/** The report helper of the plugin: the where clause and parameters of the
    proctoring-log search, and the cascading deletion of logs, their
    warnings and their picture files. The database's `sql_like` rendering
    is a function parameter; the tables are sequences of rows. */
module SettingsHelper {
  import opened Php
  import opened PhpArray

  const PLUGIN_NAME: string := "quizaccess_proctoring"

  // ---- search ----

  /** One `LIKE` condition on a column with a named placeholder; `spaced`
      conditions are wrapped as ` ( … ) `, the name conditions as `(…)`. */
  datatype Like = Like(column: string, param: string, spaced: bool)

  /** The text of one condition; `sqlLike(column, placeholder)` is the
      database's case-insensitive `LIKE`. */
  function Render(l: Like, sqlLike: (string, string) -> string): string {
    var like := sqlLike(l.column, ":" + l.param);
    if l.spaced then " ( " + like + " ) " else "(" + like + ")"
  }

  function RenderAll(ls: seq<Like>, sqlLike: (string, string) -> string): (r: seq<string>)
    ensures |r| == |ls|
    ensures forall i :: 0 <= i < |ls| ==> r[i] == Render(ls[i], sqlLike)
  {
    seq(|ls|, i requires 0 <= i < |ls| => Render(ls[i], sqlLike))
  }

  /** The first and last name searched for: the first two words of a name
      with a space, else the whole name for both. */
  function NameSplit(username: string): (r: (string, string))
    ensures ' ' !in r.0
  {
    var parts := Split(username, " ");
    if |parts| > 1 then
      assert parts[0] + " " + Join(" ", parts[1..]) == Join(" ", parts);
      FirstPieceHasNoSep(username, ' ');
      (parts[0], parts[1])
    else
      JoinSplit(username, " ");
      assert ' ' !in username by { SingleSplitHasNoSep(username, ' '); }
      (username, username)
  }

  /** The first piece of a split never contains a one-character separator. */
  lemma {:induction false} FirstPieceHasNoSep(s: string, c: char)
    ensures c !in Split(s, [c])[0]
    decreases |s|
  {
    if |s| >= 1 && s[..1] != [c] {
      FirstPieceHasNoSep(s[1..], c);
    }
  }

  /** A string that splits into a single piece has no separator. */
  lemma {:induction false} SingleSplitHasNoSep(s: string, c: char)
    requires |Split(s, [c])| == 1
    ensures c !in s
    decreases |s|
  {
    if |s| >= 1 {
      assert s[..1] != [c];
      assert s[0] != c;
      SingleSplitHasNoSep(s[1..], c);
      assert s == [s[0]] + s[1..];
    }
  }

  /** A name without spaces is searched as both first and last name; two
      words are searched as first and last name. */
  lemma NameSplitWords(first: string, last: string)
    requires ' ' !in first && ' ' !in last
    ensures NameSplit(first) == (first, first)
    ensures NameSplit(first + " " + last) == (first, last)
  {
    SplitWithoutSep(first, ' ');
    SplitAfterPiece(first, ' ', last);
    SplitWithoutSep(last, ' ');
  }

  /** Two lists of conditions and the named parameters they use. */
  datatype Clauses = Clauses(first: seq<Like>, second: seq<Like>, params: Entries)

  const NoClauses := Clauses([], [], [])

  function Concat(a: Clauses, b: Clauses): Clauses {
    Clauses(a.first + b.first, a.second + b.second, a.params + b.params)
  }

  function Param(name: string, value: string): Entry {
    Entry(StrKey(name), Str(value))
  }

  /** The name filter: first name in the first list, last name in the
      second. */
  function NameClauses(username: string): (r: Clauses)
    ensures username == "" <==> r == NoClauses
    ensures username != "" ==> |r.first| == 1 && |r.second| == 1
  {
    if username == "" then NoClauses
    else
      var (first, last) := NameSplit(username);
      Clauses([Like("u.firstname", "firstnamelike", false)], [Like("u.lastname", "lastnamelike", false)],
              [Param("firstnamelike", first), Param("lastnamelike", last)])
  }

  /** Another filter: a condition in the first list and, when a username
      is given, the same condition under a second placeholder in the second
      list. */
  function FilterClauses(column: string, name: string, value: string, withSecond: bool): (r: Clauses)
    ensures value == "" <==> r == NoClauses
    ensures value != "" ==> |r.first| == 1 && |r.second| == (if withSecond then 1 else 0)
  {
    if value == "" then NoClauses
    else if withSecond then
      Clauses([Like(column, name + "1", true)], [Like(column, name + "2", true)],
              [Param(name + "1", value), Param(name + "2", value)])
    else Clauses([Like(column, name + "1", true)], [], [Param(name + "1", value)])
  }

  /** The conditions and parameters `search` collects from its four
      filters. */
  function SearchClauses(username: string, email: string, coursename: string, quizname: string): Clauses {
    var withSecond := username != "";
    Concat(Concat(Concat(NameClauses(username), FilterClauses("u.email", "emaillike", email, withSecond)),
                  FilterClauses("c.fullname", "coursenamelike", coursename, withSecond)),
           FilterClauses("q.name", "quiznamelike", quizname, withSecond))
  }

  /** One condition per non-empty filter in the first list; the second list
      is used exactly when a username is given, and then matches the first
      in length. */
  lemma SearchClausesShape(username: string, email: string, coursename: string, quizname: string)
    ensures var c := SearchClauses(username, email, coursename, quizname);
            |c.first| == Filled(username) + Filled(email) + Filled(coursename) + Filled(quizname) &&
            (|c.second| > 0 <==> username != "") &&
            (username != "" ==> |c.second| == |c.first|)
  {
    var withSecond := username != "";
    var n := NameClauses(username);
    var e := FilterClauses("u.email", "emaillike", email, withSecond);
    var co := FilterClauses("c.fullname", "coursenamelike", coursename, withSecond);
    var q := FilterClauses("q.name", "quiznamelike", quizname, withSecond);
    var c := SearchClauses(username, email, coursename, quizname);
    assert |c.first| == |n.first| + |e.first| + |co.first| + |q.first|;
    assert |c.second| == |n.second| + |e.second| + |co.second| + |q.second|;
  }

  /** 1 for a filter that was filled in, 0 for an empty one. */
  function Filled(s: string): nat {
    if s == "" then 0 else 1
  }

  /** The where clause: nothing without conditions, both lists joined as
      alternatives when the second has any, else the first alone. */
  function WhereClause(c: Clauses, sqlLike: (string, string) -> string): (r: Option<string>)
    ensures r.None? <==> |c.first| + |c.second| == 0
    ensures r.Some? && |c.second| > 0 ==>
              r.value == " (" + Join(" AND ", RenderAll(c.first, sqlLike)) + ") OR (" + Join(" AND ", RenderAll(c.second, sqlLike)) + ") "
    ensures r.Some? && |c.second| == 0 ==> r.value == " (" + Join(" AND ", RenderAll(c.first, sqlLike)) + ")"
  {
    if |c.first| + |c.second| == 0 then None
    else if |c.second| > 0 then
      Some(" (" + Join(" AND ", RenderAll(c.first, sqlLike)) + ") OR (" + Join(" AND ", RenderAll(c.second, sqlLike)) + ") ")
    else Some(" (" + Join(" AND ", RenderAll(c.first, sqlLike)) + ")")
  }

  /** The query `search` runs: its where clause and its named parameters. */
  datatype Query = Query(where: string, params: Entries)

  /** `search`: no query at all when every filter is empty; otherwise the
      where clause of the collected conditions with their parameters. */
  function Search(username: string, email: string, coursename: string, quizname: string,
                  sqlLike: (string, string) -> string): (r: Option<Query>)
    ensures r.None? <==> username == "" && email == "" && coursename == "" && quizname == ""
    ensures r.Some? ==> Some(r.value.where) == WhereClause(SearchClauses(username, email, coursename, quizname), sqlLike)
    ensures r.Some? ==> r.value.params == SearchClauses(username, email, coursename, quizname).params
  {
    var c := SearchClauses(username, email, coursename, quizname);
    SearchClausesShape(username, email, coursename, quizname);
    match WhereClause(c, sqlLike)
    case None => None
    case Some(w) => Some(Query(w, c.params))
  }

  /** The parameter names a set of clauses binds. */
  function ParamKeys(c: Clauses): set<Key> {
    set e | e in c.params :: e.key
  }

  /** The placeholder names its conditions use. */
  function PlaceholderKeys(c: Clauses): set<Key> {
    set l | l in c.first + c.second :: StrKey(l.param)
  }

  /** Clauses whose parameters are exactly their placeholders, each bound
      once. */
  predicate Consistent(c: Clauses) {
    ParamKeys(c) == PlaceholderKeys(c) && UniqueKeys(c.params)
  }

  lemma ConcatConsistent(a: Clauses, b: Clauses)
    requires Consistent(a) && Consistent(b) && ParamKeys(a) !! ParamKeys(b)
    ensures Consistent(Concat(a, b))
  {
    var c := Concat(a, b);
    assert ParamKeys(c) == ParamKeys(a) + ParamKeys(b) by {
      assert forall e :: e in c.params <==> e in a.params || e in b.params;
    }
    assert PlaceholderKeys(c) == PlaceholderKeys(a) + PlaceholderKeys(b) by {
      assert forall l :: l in c.first + c.second <==> l in a.first + a.second || l in b.first + b.second;
    }
    forall i, j | 0 <= i < j < |c.params| ensures c.params[i].key != c.params[j].key {
      if j < |a.params| {
        assert c.params[i] == a.params[i] && c.params[j] == a.params[j];
      } else if i >= |a.params| {
        assert c.params[i] == b.params[i - |a.params|] && c.params[j] == b.params[j - |a.params|];
      } else {
        assert c.params[i] == a.params[i] && c.params[j] == b.params[j - |a.params|];
        assert a.params[i].key in ParamKeys(a);
        assert b.params[j - |a.params|].key in ParamKeys(b);
      }
    }
  }

  /** The parameter names of a clause set start with one of `letters`. */
  predicate KeysStartIn(c: Clauses, letters: string) {
    forall k :: k in ParamKeys(c) ==> k.StrKey? && |k.s| > 0 && k.s[0] in letters
  }

  lemma NameClausesConsistent(username: string)
    ensures Consistent(NameClauses(username))
    ensures KeysStartIn(NameClauses(username), "fl")
  {
    var c := NameClauses(username);
    if username != "" {
      assert ParamKeys(c) == {StrKey("firstnamelike"), StrKey("lastnamelike")};
      assert c.first + c.second == [Like("u.firstname", "firstnamelike", false), Like("u.lastname", "lastnamelike", false)];
    }
  }

  lemma FilterClausesConsistent(column: string, name: string, value: string, withSecond: bool)
    ensures Consistent(FilterClauses(column, name, value, withSecond))
    requires |name| > 0
    ensures KeysStartIn(FilterClauses(column, name, value, withSecond), [name[0]])
  {
    var c := FilterClauses(column, name, value, withSecond);
    if value != "" {
      assert (name + "1")[|name|] != (name + "2")[|name|];
      if withSecond {
        assert ParamKeys(c) == {StrKey(name + "1"), StrKey(name + "2")};
        assert c.first + c.second == [Like(column, name + "1", true), Like(column, name + "2", true)];
      } else {
        assert ParamKeys(c) == {StrKey(name + "1")};
        assert c.first + c.second == [Like(column, name + "1", true)];
      }
    }
  }

  lemma ConcatKeysStartIn(a: Clauses, b: Clauses, la: string, lb: string)
    requires Consistent(a) && Consistent(b) && KeysStartIn(a, la) && KeysStartIn(b, lb)
    requires forall x :: x in la ==> x !in lb
    ensures Consistent(Concat(a, b)) && KeysStartIn(Concat(a, b), la + lb)
  {
    ConcatConsistent(a, b);
    assert forall x :: x in Concat(a, b).params <==> x in a.params || x in b.params;
  }

  /** Every parameter of a search is bound once and used by a condition,
      and every condition's placeholder has its parameter. */
  lemma SearchParamsMatchPlaceholders(username: string, email: string, coursename: string, quizname: string)
    ensures Consistent(SearchClauses(username, email, coursename, quizname))
  {
    var withSecond := username != "";
    var n := NameClauses(username);
    var e := FilterClauses("u.email", "emaillike", email, withSecond);
    var co := FilterClauses("c.fullname", "coursenamelike", coursename, withSecond);
    var q := FilterClauses("q.name", "quiznamelike", quizname, withSecond);
    NameClausesConsistent(username);
    FilterClausesConsistent("u.email", "emaillike", email, withSecond);
    FilterClausesConsistent("c.fullname", "coursenamelike", coursename, withSecond);
    FilterClausesConsistent("q.name", "quiznamelike", quizname, withSecond);
    ConsistentFour(n, e, co, q);
  }

  /** Four consistent clause sets whose parameter names start with
      different letters combine into a consistent one. */
  lemma ConsistentFour(n: Clauses, e: Clauses, co: Clauses, q: Clauses)
    requires Consistent(n) && Consistent(e) && Consistent(co) && Consistent(q)
    requires KeysStartIn(n, "fl") && KeysStartIn(e, "e") && KeysStartIn(co, "c") && KeysStartIn(q, "q")
    ensures Consistent(Concat(Concat(Concat(n, e), co), q))
  {
    ConcatKeysStartIn(n, e, "fl", "e");
    ConcatKeysStartIn(Concat(n, e), co, "fle", "c");
    ConcatKeysStartIn(Concat(Concat(n, e), co), q, "flec", "q");
  }

  /** With a username, the second list mirrors the first: the same columns
      in the same order, each under its second placeholder (the last name
      in place of the first name). */
  lemma SearchSecondMirrorsFirst(username: string, email: string, coursename: string, quizname: string)
    requires username != ""
    ensures var c := SearchClauses(username, email, coursename, quizname);
            c.second[0].column == "u.lastname" && c.first[0].column == "u.firstname" &&
            forall i :: 1 <= i < |c.first| ==> c.second[i].column == c.first[i].column && c.second[i].spaced
  {
    var n := NameClauses(username);
    var e := FilterClauses("u.email", "emaillike", email, true);
    var co := FilterClauses("c.fullname", "coursenamelike", coursename, true);
    var q := FilterClauses("q.name", "quiznamelike", quizname, true);
    assert MirrorsFrom(n, 1);
    ConcatMirrors(n, e);
    ConcatMirrors(Concat(n, e), co);
    ConcatMirrors(Concat(Concat(n, e), co), q);
  }

  /** From position 1 on, the second list repeats the columns of the first
      with spaced conditions. */
  predicate MirrorsFrom(c: Clauses, k: nat) {
    |c.first| == |c.second| &&
    forall i :: k <= i < |c.first| ==> c.second[i].column == c.first[i].column && c.second[i].spaced
  }

  lemma ConcatMirrors(a: Clauses, b: Clauses)
    requires |a.first| >= 1 && MirrorsFrom(a, 1) && MirrorsFrom(b, 0)
    ensures MirrorsFrom(Concat(a, b), 1)
    ensures Concat(a, b).first[0] == a.first[0] && Concat(a, b).second[0] == a.second[0]
  {
    var c := Concat(a, b);
    forall i | 1 <= i < |c.first| ensures c.second[i].column == c.first[i].column && c.second[i].spaced {
      if i >= |a.first| {
        assert c.first[i] == b.first[i - |a.first|] && c.second[i] == b.second[i - |a.first|];
      } else {
        assert c.first[i] == a.first[i] && c.second[i] == a.second[i];
      }
    }
  }

  // ---- deletion ----

  /** The file name a stored picture URL points to: its last `/` segment. */
  function FileName(url: string): (r: string)
    ensures '/' !in r
  {
    LastPieceHasNoSep(url, '/');
    LastPiece(url, "/")
  }

  /** A URL's file name is the part after its last `/`. */
  lemma FileNameOfUrl(dir: string, name: string)
    requires '/' !in name
    ensures FileName(dir + "/" + name) == name
  {
    LastPieceAfterSep(dir, '/', name);
  }

  /** A proctoring log (report) row and the URL of its webcam picture. */
  datatype LogRow = LogRow(id: int, webcampicture: string)

  /** A warning row, attached to a report. */
  datatype Warning = Warning(reportid: int)

  /** A screenshot row and the URL of its picture. */
  datatype ScreenshotRow = ScreenshotRow(id: int, screenshot: string)

  /** A row of Moodle's file table. */
  datatype FileRow = FileRow(component: string, filearea: string, filepath: string, filename: string,
                             itemid: int, contextid: int)

  /** Whether the stored picture file with that name is one `deletefile`
      removes: the plugin's picture area, at the root path. */
  predicate IsPicture(f: FileRow, filename: string) {
    f.component == PLUGIN_NAME && f.filearea == "picture" && f.filepath == "/" && f.filename == filename
  }

  /** Removes the plugin's picture files with the given name. */
  function DeletePictures(files: seq<FileRow>, filename: string): (r: seq<FileRow>)
    ensures forall f :: f in r <==> f in files && !IsPicture(f, filename)
  {
    if |files| == 0 then []
    else
      var rest := DeletePictures(files[1..], filename);
      assert forall f :: f in files <==> f == files[0] || f in files[1..];
      if IsPicture(files[0], filename) then rest else [files[0]] + rest
  }

  /** Whether a row id is among the ids of the comma-separated list, as the
      `IN` query on the integer id column compares them: an item written as
      an integer (an optional sign, then digits, leading zeros allowed)
      selects the row with that number. */
  predicate Selected(id: int, deleteIds: seq<string>) {
    exists k :: 0 <= k < |deleteIds| && IsNumericStr(deleteIds[k]) && StrToInt(deleteIds[k]) == id
  }

  /** An id written the way PHP prints it selects its row. */
  lemma SelectedByText(id: int, deleteIds: seq<string>)
    requires IntToStr(id) in deleteIds
    ensures Selected(id, deleteIds)
  {
    IntToStrRoundTrip(id);
    var k :| 0 <= k < |deleteIds| && deleteIds[k] == IntToStr(id);
    assert IsNumericStr(IntToStr(id)) by {
      if id < 0 {
        assert IntToStr(id)[1..] == NatToStr(-id);
      }
    }
  }

  /** The comparison is numeric: "007" selects the row with id 7. */
  lemma SelectedWithLeadingZeros()
    ensures Selected(7, Split("3,007", ","))
  {
    var ids := Split("3,007", ",");
    assert ids == ["3", "007"] by {
      SplitAfterPiece("3", ',', "007");
      SplitWithoutSep("007", ',');
      assert "3" + [','] + "007" == "3,007";
    }
    assert IsNumericStr("007") by { assert AllDigits("007"); }
    assert StrToInt("007") == 7 by {
      LeadingDigitsOfDigits("007");
      assert "007"[..2] == "00" && "00"[..1] == "0" && "0"[..0] == "";
      assert DigitsValue("00") == 0;
    }
    assert ids[1] == "007";
  }

  /** The state `deletelogs` works on. */
  datatype LogTables = LogTables(logs: seq<LogRow>, warnings: seq<Warning>, files: seq<FileRow>)

  function RemoveLogs(logs: seq<LogRow>, id: int): (r: seq<LogRow>)
    ensures forall l :: l in r <==> l in logs && l.id != id
  {
    if |logs| == 0 then []
    else
      var rest := RemoveLogs(logs[1..], id);
      assert forall l :: l in logs <==> l == logs[0] || l in logs[1..];
      if logs[0].id == id then rest else [logs[0]] + rest
  }

  function RemoveWarnings(warnings: seq<Warning>, reportid: int): (r: seq<Warning>)
    ensures forall w :: w in r <==> w in warnings && w.reportid != reportid
  {
    if |warnings| == 0 then []
    else
      var rest := RemoveWarnings(warnings[1..], reportid);
      assert forall w :: w in warnings <==> w == warnings[0] || w in warnings[1..];
      if warnings[0].reportid == reportid then rest else [warnings[0]] + rest
  }

  /** The rows of `logs` whose id is selected, in table order. */
  function SelectedLogs(logs: seq<LogRow>, deleteIds: seq<string>): (r: seq<LogRow>)
    ensures forall l :: l in r <==> l in logs && Selected(l.id, deleteIds)
  {
    if |logs| == 0 then []
    else
      var rest := SelectedLogs(logs[1..], deleteIds);
      assert forall l :: l in logs <==> l == logs[0] || l in logs[1..];
      if Selected(logs[0].id, deleteIds) then [logs[0]] + rest else rest
  }

  /** The loop of `deletelogs` over the fetched rows: each one's warnings,
      the row itself and its picture files go. */
  function DeleteEachLog(t: LogTables, rows: seq<LogRow>): (r: LogTables)
    ensures forall l :: l in r.logs <==> l in t.logs && !exists row :: row in rows && row.id == l.id
    ensures forall w :: w in r.warnings <==> w in t.warnings && !exists row :: row in rows && row.id == w.reportid
    ensures forall f :: f in r.files <==>
              f in t.files && !exists row :: row in rows && IsPicture(f, FileName(row.webcampicture))
    decreases |rows|
  {
    if |rows| == 0 then t
    else
      var row := rows[0];
      var next := LogTables(RemoveLogs(t.logs, row.id), RemoveWarnings(t.warnings, row.id),
                            DeletePictures(t.files, FileName(row.webcampicture)));
      assert forall x :: x in rows <==> x == row || x in rows[1..];
      DeleteEachLog(next, rows[1..])
  }

  /** `deletelogs`: the reports whose id is in the comma-separated list are
      removed together with their warnings and picture files. */
  function DeleteLogs(t: LogTables, deleteIdString: string): (r: LogTables)
    ensures forall l :: l in r.logs <==> l in t.logs && !Selected(l.id, Split(deleteIdString, ","))
    ensures forall w :: w in r.warnings <==>
              w in t.warnings && !exists l :: l in t.logs && Selected(l.id, Split(deleteIdString, ",")) && l.id == w.reportid
    ensures forall f :: f in r.files <==>
              f in t.files && !exists l :: l in t.logs && Selected(l.id, Split(deleteIdString, ",")) &&
                                            IsPicture(f, FileName(l.webcampicture))
  {
    var deleteIds := Split(deleteIdString, ",");
    var rows := SelectedLogs(t.logs, deleteIds);
    var r := DeleteEachLog(t, rows);
    r
  }

  /** Deleting logs never removes a warning whose report is not deleted,
      and leaves the tables as they are when no id matches. */
  lemma DeleteLogsNothingSelected(t: LogTables, deleteIdString: string)
    requires forall l :: l in t.logs ==> !Selected(l.id, Split(deleteIdString, ","))
    ensures DeleteLogs(t, deleteIdString).logs == t.logs
    ensures DeleteLogs(t, deleteIdString).warnings == t.warnings
    ensures DeleteLogs(t, deleteIdString).files == t.files
  {
    var deleteIds := Split(deleteIdString, ",");
    NoneSelected(t.logs, deleteIds);
  }

  lemma {:induction false} NoneSelected(logs: seq<LogRow>, deleteIds: seq<string>)
    requires forall l :: l in logs ==> !Selected(l.id, deleteIds)
    ensures SelectedLogs(logs, deleteIds) == []
    decreases |logs|
  {
    if |logs| > 0 {
      assert logs[0] in logs;
      assert forall l :: l in logs[1..] ==> l in logs;
      NoneSelected(logs[1..], deleteIds);
    }
  }

  /** An empty id list selects nothing: `explode` gives one empty id, which
      is no number. */
  lemma EmptyIdListSelectsNothing(id: int)
    ensures !Selected(id, Split("", ","))
  {
    assert Split("", ",") == [""];
  }

  /** The state `deletesslogs` works on. */
  datatype ScreenshotTables = ScreenshotTables(screenshots: seq<ScreenshotRow>, files: seq<FileRow>)

  function RemoveScreenshots(rows: seq<ScreenshotRow>, id: int): (r: seq<ScreenshotRow>)
    ensures forall s :: s in r <==> s in rows && s.id != id
  {
    if |rows| == 0 then []
    else
      var rest := RemoveScreenshots(rows[1..], id);
      assert forall s :: s in rows <==> s == rows[0] || s in rows[1..];
      if rows[0].id == id then rest else [rows[0]] + rest
  }

  function SelectedScreenshots(rows: seq<ScreenshotRow>, deleteIds: seq<string>): (r: seq<ScreenshotRow>)
    ensures forall s :: s in r <==> s in rows && Selected(s.id, deleteIds)
  {
    if |rows| == 0 then []
    else
      var rest := SelectedScreenshots(rows[1..], deleteIds);
      assert forall s :: s in rows <==> s == rows[0] || s in rows[1..];
      if Selected(rows[0].id, deleteIds) then [rows[0]] + rest else rest
  }

  function DeleteEachScreenshot(t: ScreenshotTables, rows: seq<ScreenshotRow>): (r: ScreenshotTables)
    ensures forall s :: s in r.screenshots <==> s in t.screenshots && !exists row :: row in rows && row.id == s.id
    ensures forall f :: f in r.files <==>
              f in t.files && !exists row :: row in rows && IsPicture(f, FileName(row.screenshot))
    decreases |rows|
  {
    if |rows| == 0 then t
    else
      var row := rows[0];
      var next := ScreenshotTables(RemoveScreenshots(t.screenshots, row.id),
                                   DeletePictures(t.files, FileName(row.screenshot)));
      assert forall x :: x in rows <==> x == row || x in rows[1..];
      DeleteEachScreenshot(next, rows[1..])
  }

  /** `deletesslogs`: exactly the screenshot rows whose id is in the
      comma-separated list are removed, with their picture files. */
  function DeleteSsLogs(t: ScreenshotTables, deleteIdString: string): (r: ScreenshotTables)
    ensures forall s :: s in r.screenshots <==> s in t.screenshots && !Selected(s.id, Split(deleteIdString, ","))
    ensures forall f :: f in r.files <==>
              f in t.files && !exists s :: s in t.screenshots && Selected(s.id, Split(deleteIdString, ",")) &&
                                            IsPicture(f, FileName(s.screenshot))
  {
    var deleteIds := Split(deleteIdString, ",");
    var rows := SelectedScreenshots(t.screenshots, deleteIds);
    var r := DeleteEachScreenshot(t, rows);
    r
  }
}
