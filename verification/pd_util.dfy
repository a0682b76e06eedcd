/** The menu builders of the shared `pd_util` class: option lists for
    selects, built from records or from language string identifiers.
    Translation by `str_check` is a function parameter; `str` goes through
    the plugin helper's `GetStr`. */
module PdUtil {
  import opened Php
  import opened PhpArray
  import Util
  import PluginDeps

  // ---- records2menu ----

  /** What one record adds to the menu. `Fail` is where PHP raises a
      TypeError: a key that is an array or object, or joining a value that
      is not an array. */
  datatype Outcome = Skip | Put(k: Key, v: Value) | Fail

  /** The names `records2menu` reads the value from: a one-item list is
      replaced by its item. */
  function SecondName(secondname: Value): Value {
    if secondname.Arr? && |secondname.entries| == 1 then secondname.entries[0].val else secondname
  }

  /** The last of the listed properties that is set on the record. */
  function LastSet(record: Value, names: seq<Value>): (r: Option<Value>)
    ensures r.Some? ==> exists i :: 0 <= i < |names| && Prop(record, ToStr(names[i])) == r.value && r.value != Null
    ensures r.None? ==> forall i :: 0 <= i < |names| ==> !HasProp(record, ToStr(names[i]))
  {
    if |names| == 0 then None
    else
      var last := names[|names| - 1];
      if HasProp(record, ToStr(last)) then Some(Prop(record, ToStr(last)))
      else
        var r := LastSet(record, names[..|names| - 1]);
        assert forall i :: 0 <= i < |names| - 1 ==> names[..|names| - 1][i] == names[i];
        r
  }

  /** The menu entry of one record: a string record is translated under its
      own key; a record without the key property is skipped; otherwise the
      key property maps to the value property (or null), or, for a list of
      value properties, to the last one set, joined by the separator. */
  function Contribution(e: Entry, firstname: string, second: Value, separator: string,
                        strCheck: string -> string): (r: Outcome)
    ensures e.val.Str? ==> r == Put(e.key, Str(strCheck(e.val.s)))
    ensures !e.val.Str? && !HasProp(e.val, firstname) ==> r.Skip?
    ensures r.Skip? ==> !e.val.Str? && !HasProp(e.val, firstname)
    ensures r.Put? ==> e.val.Str? || HasProp(e.val, firstname)
    ensures !e.val.Str? && HasProp(e.val, firstname) && !second.Arr? && ToKey(Prop(e.val, firstname)).Some? ==>
              r == Put(ToKey(Prop(e.val, firstname)).value, Prop(e.val, ToStr(second)))
  {
    if e.val.Str? then Put(e.key, Str(strCheck(e.val.s)))
    else if !HasProp(e.val, firstname) then Skip
    else match ToKey(Prop(e.val, firstname))
      case None => Fail
      case Some(k) =>
        if second.Arr? then
          match LastSet(e.val, ValuesOf(second.entries))
          case None => Put(k, Str(""))
          case Some(v) => if v.Arr? then Put(k, Str(Join(separator, Util.StrsOf(ValuesOf(v.entries))))) else Fail
        else Put(k, Prop(e.val, ToStr(second)))
  }

  /** The menu built record by record; a later record overwrites an earlier
      one with the same key. */
  function Menu(acc: Entries, records: Entries, firstname: string, second: Value, separator: string,
                strCheck: string -> string): (r: Option<Entries>)
    ensures r.None? <==> exists i :: 0 <= i < |records| && Contribution(records[i], firstname, second, separator, strCheck).Fail?
    ensures r.Some? ==> forall k :: Has(r.value, k) <==>
              Has(acc, k) || exists i :: 0 <= i < |records| && Contribution(records[i], firstname, second, separator, strCheck).Put? &&
                                         Contribution(records[i], firstname, second, separator, strCheck).k == k
    decreases |records|
  {
    if |records| == 0 then Some(acc)
    else
      assert forall i :: 1 <= i < |records| ==> records[i] == records[1..][i - 1];
      match Contribution(records[0], firstname, second, separator, strCheck)
      case Skip => Menu(acc, records[1..], firstname, second, separator, strCheck)
      case Fail => None
      case Put(k, v) => Menu(Set(acc, k, v), records[1..], firstname, second, separator, strCheck)
  }

  /** Every value in the menu was put there by a record, or was already in
      the accumulator. */
  lemma {:induction false} MenuValuesFromRecords(acc: Entries, records: Entries, firstname: string, second: Value,
                                                 separator: string, strCheck: string -> string, k: Key)
    requires Menu(acc, records, firstname, second, separator, strCheck).Some?
    requires Has(Menu(acc, records, firstname, second, separator, strCheck).value, k)
    ensures var v := Lookup(Menu(acc, records, firstname, second, separator, strCheck).value, k).value;
            Lookup(acc, k) == Some(v) ||
            exists i :: 0 <= i < |records| && Contribution(records[i], firstname, second, separator, strCheck) == Put(k, v)
    decreases |records|
  {
    if |records| > 0 {
      var m := Menu(acc, records, firstname, second, separator, strCheck).value;
      var v := Lookup(m, k).value;
      var rest := records[1..];
      assert forall i :: 0 <= i < |rest| ==> rest[i] == records[i + 1];
      match Contribution(records[0], firstname, second, separator, strCheck)
      case Skip =>
        MenuValuesFromRecords(acc, rest, firstname, second, separator, strCheck, k);
      case Put(k0, v0) =>
        MenuValuesFromRecords(Set(acc, k0, v0), rest, firstname, second, separator, strCheck, k);
    }
  }

  /** `records2menu`: nothing for empty records or names; otherwise the menu
      of the records (None where PHP raises a TypeError). */
  function Records2Menu(records: Entries, secondname: Value, firstname: Value, separator: string,
                        strCheck: string -> string): (r: Option<Entries>)
    ensures records == [] || Empty(secondname) || Empty(firstname) ==> r == Some([])
    ensures !(records == [] || Empty(secondname) || Empty(firstname)) ==>
              r == Menu([], records, ToStr(firstname), SecondName(secondname), separator, strCheck)
  {
    if records == [] || Empty(secondname) || Empty(firstname) then Some([])
    else Menu([], records, ToStr(firstname), SecondName(secondname), separator, strCheck)
  }

  /** Each string record keeps its key in the menu, and every menu key comes
      from a string record or from a record holding the key property. */
  lemma Records2MenuKeys(records: Entries, secondname: Value, firstname: Value, separator: string,
                         strCheck: string -> string)
    requires !(Empty(secondname) || Empty(firstname))
    requires Records2Menu(records, secondname, firstname, separator, strCheck).Some?
    ensures var menu := Records2Menu(records, secondname, firstname, separator, strCheck).value;
            (forall i :: 0 <= i < |records| && records[i].val.Str? ==> Has(menu, records[i].key)) &&
            (forall k :: Has(menu, k) ==>
               (exists i :: 0 <= i < |records| && (records[i].val.Str? || HasProp(records[i].val, ToStr(firstname)))))
  {
    var menu := Records2Menu(records, secondname, firstname, separator, strCheck).value;
    var second := SecondName(secondname);
    var fn := ToStr(firstname);
    forall i | 0 <= i < |records| && records[i].val.Str? ensures Has(menu, records[i].key) {
      assert Contribution(records[i], fn, second, separator, strCheck).k == records[i].key;
    }
  }

  // ---- strings2menu ----

  /** The translation `strings2menu` asks for: `str($string, null, $plugin)`
      of the plugin helper, through Moodle's string manager `getString`. */
  datatype Translator = Translator(p: PluginDeps.Plugin, plugin: Option<string>,
                                   getString: (string, string, Value) -> string)

  function Translate(tr: Translator, identifier: Value): string {
    PluginDeps.GetStr(tr.p, identifier, Null, tr.plugin, tr.getString)
  }

  /** One menu item of `strings2menu`: the translation, with the additional
      data for its key in parentheses, between two copies of `surround`. */
  function MenuLabel(e: Entry, surround: string, additional: Entries, tr: Translator): (r: string)
    ensures Isset(additional, e.key) ==>
              r == surround + Translate(tr, e.val) + "(" + ToStr(At(additional, e.key)) + ")" + surround
    ensures !Isset(additional, e.key) ==> r == surround + Translate(tr, e.val) + surround
    ensures Empty(e.val) && !IsNumeric(e.val) && !Isset(additional, e.key) ==> r == surround + surround
    ensures !Empty(e.val) ==>
              Translate(tr, e.val) == tr.getString(ToStr(e.val), if tr.plugin.Some? then tr.plugin.value else tr.p.name, Null)
  {
    var add := if Isset(additional, e.key) then "(" + ToStr(At(additional, e.key)) + ")" else "";
    surround + Translate(tr, e.val) + add + surround
  }

  /** The key of one menu item: the string itself or its original key. */
  function LabelKey(e: Entry, useStringAsKey: bool): Option<Key> {
    if useStringAsKey then ToKey(e.val) else Some(e.key)
  }

  /** The last of `strings` whose menu key is `k`: the one whose label the
      menu keeps, since a later item overwrites an earlier one. */
  function LastLabelled(strings: Entries, useStringAsKey: bool, k: Key): (r: Option<Entry>)
    ensures r.None? <==> forall i :: 0 <= i < |strings| ==> LabelKey(strings[i], useStringAsKey) != Some(k)
    ensures r.Some? ==> exists i :: 0 <= i < |strings| && strings[i] == r.value &&
                          LabelKey(strings[i], useStringAsKey) == Some(k) &&
                          forall j :: i < j < |strings| ==> LabelKey(strings[j], useStringAsKey) != Some(k)
    decreases |strings|
  {
    if |strings| == 0 then None
    else
      var rest := LastLabelled(strings[1..], useStringAsKey, k);
      assert forall j :: 1 <= j < |strings| ==> strings[j] == strings[1..][j - 1];
      if rest.Some? then
        var i :| 0 <= i < |strings[1..]| && strings[1..][i] == rest.value &&
                 LabelKey(strings[1..][i], useStringAsKey) == Some(k) &&
                 forall j :: i < j < |strings[1..]| ==> LabelKey(strings[1..][j], useStringAsKey) != Some(k);
        assert strings[i + 1] == rest.value;
        rest
      else if LabelKey(strings[0], useStringAsKey) == Some(k) then Some(strings[0])
      else None
  }

  /** The menu built on `acc`: every key of `acc` or of some string, and at
      each string's key the label of the last string with that key. */
  function Labels(acc: Entries, strings: Entries, useStringAsKey: bool, surround: string, additional: Entries,
                  tr: Translator): (r: Entries)
    ensures forall k :: Has(r, k) <==> Has(acc, k) || exists e :: e in strings && LabelKey(e, useStringAsKey) == Some(k)
    ensures forall k :: LastLabelled(strings, useStringAsKey, k).Some? ==>
              Lookup(r, k) == Some(Str(MenuLabel(LastLabelled(strings, useStringAsKey, k).value, surround, additional, tr)))
    ensures forall k :: LastLabelled(strings, useStringAsKey, k).None? ==> Lookup(r, k) == Lookup(acc, k)
    decreases |strings|
  {
    if |strings| == 0 then acc
    else
      var e := strings[0];
      var next := match LabelKey(e, useStringAsKey)
        case Some(k) => Set(acc, k, Str(MenuLabel(e, surround, additional, tr)))
        case None => acc;
      assert strings == [e] + strings[1..];
      Labels(next, strings[1..], useStringAsKey, surround, additional, tr)
  }

  /** `strings2menu`: nothing for empty input; otherwise one labelled item
      per string, keyed by the string or by its original key. */
  function Strings2Menu(strings: Value, useStringAsKey: bool, surround: string, additional: Entries,
                        tr: Translator): (r: Entries)
    ensures Empty(strings) || !strings.Arr? ==> r == []
    ensures strings.Arr? ==> forall k :: Has(r, k) <==>
              exists e :: e in strings.entries && LabelKey(e, useStringAsKey) == Some(k)
    ensures strings.Arr? ==> forall k :: LastLabelled(strings.entries, useStringAsKey, k).Some? ==>
              Lookup(r, k) == Some(Str(MenuLabel(LastLabelled(strings.entries, useStringAsKey, k).value, surround, additional, tr)))
  {
    if Empty(strings) || !strings.Arr? then []
    else Labels([], strings.entries, useStringAsKey, surround, additional, tr)
  }

  /** A string whose key no later string takes gets its own label, under
      either kind of key; with strings as keys a repeated string keeps the
      label of its last occurrence. */
  lemma Strings2MenuLastWins(strings: Entries, useStringAsKey: bool, surround: string, additional: Entries,
                             tr: Translator, i: nat)
    requires i < |strings| && LabelKey(strings[i], useStringAsKey).Some?
    requires forall j :: i < j < |strings| ==> LabelKey(strings[j], useStringAsKey) != LabelKey(strings[i], useStringAsKey)
    ensures Lookup(Strings2Menu(Arr(strings), useStringAsKey, surround, additional, tr),
                   LabelKey(strings[i], useStringAsKey).value) ==
            Some(Str(MenuLabel(strings[i], surround, additional, tr)))
  {
    var k := LabelKey(strings[i], useStringAsKey).value;
    var last := LastLabelled(strings, useStringAsKey, k);
    assert last.Some?;
    var i' :| 0 <= i' < |strings| && strings[i'] == last.value &&
              LabelKey(strings[i'], useStringAsKey) == Some(k) &&
              forall j :: i' < j < |strings| ==> LabelKey(strings[j], useStringAsKey) != Some(k);
    assert i' == i;
  }

  /** Keyed by original key, every string gets exactly its own label. */
  lemma {:induction false} LabelsByOriginalKey(acc: Entries, strings: Entries, surround: string, additional: Entries,
                                               tr: Translator)
    requires UniqueKeys(strings)
    ensures forall i :: 0 <= i < |strings| ==>
              Lookup(Labels(acc, strings, false, surround, additional, tr), strings[i].key) ==
              Some(Str(MenuLabel(strings[i], surround, additional, tr)))
    decreases |strings|
  {
    if |strings| > 0 {
      var e := strings[0];
      var next := Set(acc, e.key, Str(MenuLabel(e, surround, additional, tr)));
      var rest := strings[1..];
      assert UniqueKeys(rest) by {
        forall i, j | 0 <= i < j < |rest| ensures rest[i].key != rest[j].key {
          assert rest[i] == strings[i + 1] && rest[j] == strings[j + 1];
        }
      }
      LabelsByOriginalKey(next, rest, surround, additional, tr);
      LabelsKeepUntouched(next, rest, surround, additional, tr, e.key);
      forall i | 0 <= i < |strings|
        ensures Lookup(Labels(acc, strings, false, surround, additional, tr), strings[i].key) ==
                Some(Str(MenuLabel(strings[i], surround, additional, tr)))
      {
        if i > 0 {
          assert strings[i] == rest[i - 1];
        }
      }
    }
  }

  /** A key no later string uses keeps its value. */
  lemma {:induction false} LabelsKeepUntouched(acc: Entries, strings: Entries, surround: string, additional: Entries,
                                               tr: Translator, k: Key)
    requires forall i :: 0 <= i < |strings| ==> strings[i].key != k
    ensures Lookup(Labels(acc, strings, false, surround, additional, tr), k) == Lookup(acc, k)
    decreases |strings|
  {
    if |strings| > 0 {
      var e := strings[0];
      var next := Set(acc, e.key, Str(MenuLabel(e, surround, additional, tr)));
      forall i | 0 <= i < |strings[1..]| ensures strings[1..][i].key != k {
        assert strings[1..][i] == strings[i + 1];
      }
      LabelsKeepUntouched(next, strings[1..], surround, additional, tr, k);
    }
  }
}
