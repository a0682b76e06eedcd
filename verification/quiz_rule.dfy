/** The quiz access rule: when the preflight form is shown, how it is
    validated, when the rule applies to a quiz, and how the per-quiz
    setting row is saved and deleted. Whether the page is served securely,
    the topmost script and the translation of error strings are
    parameters; the settings table is a sequence of rows. */
module QuizRule {
  import opened Php
  import opened PhpArray

  // ---- preflight ----

  /** The path with any trailing slashes removed. */
  function TrimTrailingSlashes(s: string): (r: string)
    ensures r <= s
    ensures |r| == 0 || r[|r| - 1] != '/'
    ensures forall i :: |r| <= i < |s| ==> s[i] == '/'
  {
    if |s| > 0 && s[|s| - 1] == '/' then TrimTrailingSlashes(s[..|s| - 1]) else s
  }

  /** PHP `basename` on a `/`-separated path: the last component, ignoring
      trailing slashes. */
  function Basename(path: string): (r: string)
    ensures '/' !in r
  {
    LastPieceHasNoSep(TrimTrailingSlashes(path), '/');
    LastPiece(TrimTrailingSlashes(path), "/")
  }

  /** A bare file name is its own base name. */
  lemma BasenameOfName(name: string)
    requires '/' !in name
    ensures Basename(name) == name
  {
    SplitWithoutSep(name, '/');
  }

  /** A path's base name is its last component. */
  lemma BasenameOfPath(dir: string, name: string)
    requires '/' !in name && name != ""
    ensures Basename(dir + "/" + name) == name
  {
    var s := dir + "/" + name;
    assert s[|s| - 1] == name[|name| - 1];
    assert TrimTrailingSlashes(s) == s;
    LastPieceAfterSep(dir, '/', name);
  }

  /** `is_preflight_check_required`: always on an insecure page, otherwise
      only on the quiz view page. */
  function IsPreflightCheckRequired(secure: bool, topmostScript: string): (r: bool)
    ensures !secure ==> r
    ensures secure ==> (r <==> Basename(topmostScript) == "view.php")
  {
    !secure || Basename(topmostScript) == "view.php"
  }

  const REQUIRESECURE: Key := StrKey("error:requiresecure")
  const PROCTORING: Key := StrKey("proctoring")

  lemma ErrorKeysDiffer()
    ensures REQUIRESECURE != PROCTORING
  {
    assert REQUIRESECURE.s[0] != PROCTORING.s[0];
  }

  /** `$errors[$k] = $msg` when `cond` holds; the errors are kept as they
      were otherwise. */
  function AddError(errors: Entries, k: Key, msg: string, cond: bool): (r: Entries)
    ensures Has(r, k) <==> cond || Has(errors, k)
    ensures cond ==> Lookup(r, k) == Some(Str(msg))
    ensures forall k' :: k' != k ==> Lookup(r, k') == Lookup(errors, k')
    ensures !cond ==> r == errors
  {
    if cond then Set(errors, k, Str(msg)) else errors
  }

  /** `validate_preflight_check`: adds the secure-page error on an insecure
      page and the agreement error when the box was not ticked; every other
      error is kept as it was. `str` translates a string identifier. */
  function ValidatePreflightCheck(data: Entries, errors: Entries, secure: bool, str: string -> string): (r: Entries)
    ensures Has(r, REQUIRESECURE) <==> !secure || Has(errors, REQUIRESECURE)
    ensures !secure ==> Lookup(r, REQUIRESECURE) == Some(Str(str("error:requiresecure")))
    ensures Has(r, PROCTORING) <==> Empty(At(data, PROCTORING)) || Has(errors, PROCTORING)
    ensures Empty(At(data, PROCTORING)) ==> Lookup(r, PROCTORING) == Some(Str(str("youmustagree")))
    ensures forall k :: k != REQUIRESECURE && k != PROCTORING ==> Lookup(r, k) == Lookup(errors, k)
    ensures forall k :: Has(errors, k) ==> Has(r, k)
  {
    ErrorKeysDiffer();
    var e1 := AddError(errors, REQUIRESECURE, str("error:requiresecure"), !secure);
    AddError(e1, PROCTORING, str("youmustagree"), Empty(At(data, PROCTORING)))
  }

  // ---- make ----

  /** The quiz fields the rule reads. */
  datatype Quiz = Quiz(id: int, proctoringrequired: Value)

  /** The rule instance `make` builds. */
  datatype Rule = Rule(quiz: Quiz, timenow: int)

  /** `make`: the rule applies exactly to quizzes that require proctoring. */
  function Make(quiz: Quiz, timenow: int): (r: Option<Rule>)
    ensures r.None? <==> Empty(quiz.proctoringrequired)
    ensures r.Some? ==> r.value.quiz == quiz
  {
    if Empty(quiz.proctoringrequired) then None else Some(Rule(quiz, timenow))
  }

  // ---- settings ----

  /** A row of the plugin's settings table. */
  datatype Setting = Setting(quizid: int, proctoringrequired: int)

  /** The number of rows for one quiz. */
  function CountFor(table: seq<Setting>, quizid: int): nat {
    if |table| == 0 then 0
    else (if table[0].quizid == quizid then 1 else 0) + CountFor(table[1..], quizid)
  }

  predicate HasRowFor(table: seq<Setting>, quizid: int) {
    exists i :: 0 <= i < |table| && table[i].quizid == quizid
  }

  /** `delete_settings`: the rows of the quiz are removed, all others kept in
      order. */
  function DeleteSettings(table: seq<Setting>, quizid: int): (r: seq<Setting>)
    ensures forall s :: s in r <==> s in table && s.quizid != quizid
    ensures !HasRowFor(r, quizid)
    ensures CountFor(r, quizid) == 0
    ensures |r| == |table| - CountFor(table, quizid)
  {
    if |table| == 0 then []
    else
      var rest := DeleteSettings(table[1..], quizid);
      assert forall s :: s in table <==> s == table[0] || s in table[1..];
      if table[0].quizid == quizid then rest else [table[0]] + rest
  }

  /** `save_settings`: a quiz that does not require proctoring loses its
      rows; one that does gets a row unless it already has one. */
  function SaveSettings(table: seq<Setting>, quiz: Quiz): (r: seq<Setting>)
    ensures Empty(quiz.proctoringrequired) ==> r == DeleteSettings(table, quiz.id)
    ensures !Empty(quiz.proctoringrequired) && HasRowFor(table, quiz.id) ==> r == table
    ensures !Empty(quiz.proctoringrequired) && !HasRowFor(table, quiz.id) ==> r == table + [Setting(quiz.id, 1)]
  {
    if Empty(quiz.proctoringrequired) then DeleteSettings(table, quiz.id)
    else if HasRowFor(table, quiz.id) then table
    else table + [Setting(quiz.id, 1)]
  }

  lemma {:induction false} CountForAppend(table: seq<Setting>, s: Setting, quizid: int)
    ensures CountFor(table + [s], quizid) == CountFor(table, quizid) + (if s.quizid == quizid then 1 else 0)
    decreases |table|
  {
    if |table| > 0 {
      assert (table + [s])[1..] == table[1..] + [s];
      CountForAppend(table[1..], s, quizid);
    }
  }

  lemma {:induction false} CountForNoRow(table: seq<Setting>, quizid: int)
    ensures CountFor(table, quizid) == 0 <==> !HasRowFor(table, quizid)
    decreases |table|
  {
    if |table| > 0 {
      CountForNoRow(table[1..], quizid);
      assert forall i :: 1 <= i < |table| ==> table[i] == table[1..][i - 1];
      assert HasRowFor(table[1..], quizid) ==> HasRowFor(table, quizid) by {
        if HasRowFor(table[1..], quizid) {
          var i :| 0 <= i < |table[1..]| && table[1..][i].quizid == quizid;
          assert table[i + 1].quizid == quizid;
        }
      }
    }
  }

  /** Saving a quiz that requires proctoring into a table without its row
      leaves exactly one row for it, and saving again changes nothing. */
  lemma SaveSettingsOneRow(table: seq<Setting>, quiz: Quiz)
    requires !Empty(quiz.proctoringrequired) && !HasRowFor(table, quiz.id)
    ensures CountFor(SaveSettings(table, quiz), quiz.id) == 1
    ensures SaveSettings(SaveSettings(table, quiz), quiz) == SaveSettings(table, quiz)
  {
    CountForNoRow(table, quiz.id);
    CountForAppend(table, Setting(quiz.id, 1), quiz.id);
    var saved := SaveSettings(table, quiz);
    assert saved[|table|].quizid == quiz.id;
  }

  /** Saving is idempotent in every case. */
  lemma SaveSettingsIdempotent(table: seq<Setting>, quiz: Quiz)
    ensures SaveSettings(SaveSettings(table, quiz), quiz) == SaveSettings(table, quiz)
  {
    if Empty(quiz.proctoringrequired) {
      DeleteSettingsIdempotent(table, quiz.id);
    } else if !HasRowFor(table, quiz.id) {
      SaveSettingsOneRow(table, quiz);
    }
  }

  lemma {:induction false} DeleteSettingsIdempotent(table: seq<Setting>, quizid: int)
    ensures DeleteSettings(DeleteSettings(table, quizid), quizid) == DeleteSettings(table, quizid)
    decreases |table|
  {
    if |table| > 0 {
      DeleteSettingsIdempotent(table[1..], quizid);
      var rest := DeleteSettings(table[1..], quizid);
      if table[0].quizid != quizid {
        assert ([table[0]] + rest)[1..] == rest;
      }
    }
  }
}
