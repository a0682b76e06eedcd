/** The course-data helpers of the shared `data_util` class: activity
    visibility by the plugin's rule, its aggregation over users, the
    filtering of important activities, group choice, user lists and the
    purge of course-dependent caches. Moodle's per-user visibility data, the
    group cache and the user table are function parameters. */
module DataUtil {
  import opened Php
  import opened PhpArray
  import Util
  import GlobalStore

  // ---- visibility ----

  /** `_calc_activity_visibility`: an activity is shown when the user may
      view it and either sees it, or sees its availability information and
      unavailable activities are not treated as invisible. */
  function CalcActivityVisibility(unavailableAsInvisible: bool, uservisible: bool, availableinfo: string, hasView: bool): (r: bool)
    ensures !hasView ==> !r
    ensures !uservisible && (unavailableAsInvisible || Empty(Str(availableinfo))) ==> !r
    ensures hasView && (uservisible || (!unavailableAsInvisible && !Empty(Str(availableinfo)))) ==> r
  {
    if !uservisible && (unavailableAsInvisible || Empty(Str(availableinfo))) then false
    else hasView
  }

  /** Treating unavailable activities as invisible can only hide more. */
  lemma UnavailableAsInvisibleHidesMore(uservisible: bool, availableinfo: string, hasView: bool)
    ensures CalcActivityVisibility(true, uservisible, availableinfo, hasView) ==>
            CalcActivityVisibility(false, uservisible, availableinfo, hasView)
  {
  }

  /** The any/all user rule the visibility helpers apply. */
  predicate UsersRule(users: seq<Value>, ruleAny: bool, visible: Value -> bool) {
    if ruleAny then exists i :: 0 <= i < |users| && visible(users[i])
    else forall i :: 0 <= i < |users| ==> visible(users[i])
  }

  /** The loop shared by the visibility helpers: stops at the first visible
      user under the "any" rule and at the first invisible one under the
      "all" rule. */
  method CheckUsers(users: seq<Value>, ruleAny: bool, visible: Value -> bool) returns (r: bool)
    ensures r <==> UsersRule(users, ruleAny, visible)
  {
    var i := 0;
    while i < |users|
      invariant 0 <= i <= |users|
      invariant ruleAny ==> forall j :: 0 <= j < i ==> !visible(users[j])
      invariant !ruleAny ==> forall j :: 0 <= j < i ==> visible(users[j])
    {
      if visible(users[i]) {
        if ruleAny {
          return true;
        }
      } else if !ruleAny {
        return false;
      }
      i := i + 1;
    }
    return !ruleAny;
  }

  /** `get_cm_visibility_by_userlist`: with no users only the global user is
      checked; otherwise an invisible global user (when checked) hides the
      activity, and the rest is the any/all rule over the users. `visible`
      gives the plugin's visibility for a user, the global user being
      `Null`. */
  method CmVisibilityByUserlist(users: Value, checkGlobalVisibility: bool, ruleAny: bool, visible: Value -> bool)
    returns (r: bool)
    ensures Empty(users) ==> (r <==> visible(Null))
    ensures !Empty(users) && checkGlobalVisibility && !visible(Null) ==> !r
    ensures !Empty(users) && (!checkGlobalVisibility || visible(Null)) ==>
              (r <==> UsersRule(ValuesOf(Util.Val2Arr(users, true)), ruleAny, visible))
  {
    if Empty(users) {
      return visible(Null);
    }
    if checkGlobalVisibility && !visible(Null) {
      return false;
    }
    r := CheckUsers(ValuesOf(Util.Val2Arr(users, true)), ruleAny, visible);
  }

  /** The key `isset($compare_list[$cm->id])` looks at. */
  function IdKey(v: Value): Key {
    match ToKey(Prop(v, "id"))
    case Some(k) => k
    case None => StrKey("")
  }

  /** Whether the activity filter keeps one activity. */
  predicate KeepActivity(cm: Value, compareList: Option<Entries>, users: seq<Value>, ruleAny: bool,
                         visible: (Value, Value) -> bool) {
    (compareList.None? || Isset(compareList.value, IdKey(cm))) &&
    (users == [] || UsersRule(users, ruleAny, u => visible(cm, u)))
  }

  /** `get_important_activities_by_users_and_compare_list`: a given but empty
      compare list gives nothing; with neither a compare list nor users the
      activities come back as they are; otherwise the activities whose id is
      in the compare list and that pass the any/all user rule, under their
      original keys. `activities` is what `get_important_activities`
      loaded and `visible(cm, user)` the plugin's visibility. */
  function ImportantActivities(activities: Entries, compareList: Option<Entries>, users: Value, ruleAny: bool,
                               visible: (Value, Value) -> bool): (r: Entries)
    ensures compareList.Some? && compareList.value == [] ==> r == []
    ensures compareList.None? && Empty(users) ==> r == activities
    ensures !(compareList.Some? && compareList.value == []) ==>
              forall e :: e in r <==> e in activities &&
                                      KeepActivity(e.val, compareList, ValuesOf(Util.Val2Arr(users, true)), ruleAny, visible)
  {
    if compareList.Some? && compareList.value == [] then []
    else if compareList.None? && Empty(users) then
      assert Util.Val2Arr(users, true) == [];
      FilterAll(activities, (e: Entry) => KeepActivity(e.val, compareList, [], ruleAny, visible));
      activities
    else
      var us := ValuesOf(Util.Val2Arr(users, true));
      Filter(activities, (e: Entry) => KeepActivity(e.val, compareList, us, ruleAny, visible))
  }

  /** A filter that keeps everything keeps the array. */
  lemma {:induction false} FilterAll(es: Entries, keep: Entry -> bool)
    requires forall i :: 0 <= i < |es| ==> keep(es[i])
    ensures Filter(es, keep) == es
    decreases |es|
  {
    if |es| > 0 {
      FilterAll(es[1..], keep);
      assert [es[0]] + es[1..] == es;
    }
  }

  /** The result never grows the activity list and keeps keys with their
      activities. */
  lemma ImportantActivitiesSubset(activities: Entries, compareList: Option<Entries>, users: Value, ruleAny: bool,
                                  visible: (Value, Value) -> bool)
    ensures var r := ImportantActivities(activities, compareList, users, ruleAny, visible);
            |r| <= |activities| && forall e :: e in r ==> e in activities
  {
  }

  // ---- groups ----

  /** `$groups[$id]` when present and not empty. */
  function NonEmptyAt(groups: Entries, id: Value): Option<Value> {
    match ToKey(id)
    case Some(k) => if Lookup(groups, k).Some? && Truthy(Lookup(groups, k).value) then Lookup(groups, k) else None
    case None => None
  }

  /** `get_chosen_group`: null without groups, the only group, the requested
      group, the cached group, else the first group. */
  function ChosenGroup(groups: Entries, groupid: Value, cachedGroupid: Value): (r: Option<Value>)
    ensures r.None? <==> groups == []
    ensures |groups| == 1 ==> r == Some(groups[0].val)
    ensures |groups| > 1 && NonEmptyAt(groups, groupid).Some? ==> r == NonEmptyAt(groups, groupid)
    ensures |groups| > 1 && NonEmptyAt(groups, groupid).None? && NonEmptyAt(groups, cachedGroupid).Some? ==>
              r == NonEmptyAt(groups, cachedGroupid)
    ensures |groups| > 1 && NonEmptyAt(groups, groupid).None? && NonEmptyAt(groups, cachedGroupid).None? ==>
              r == Some(groups[0].val)
  {
    if groups == [] then None
    else if |groups| == 1 then Some(groups[0].val)
    else if NonEmptyAt(groups, groupid).Some? then NonEmptyAt(groups, groupid)
    else if NonEmptyAt(groups, cachedGroupid).Some? then NonEmptyAt(groups, cachedGroupid)
    else Some(groups[0].val)
  }

  /** The chosen group is always one of the course's groups. */
  lemma ChosenGroupIsAGroup(groups: Entries, groupid: Value, cachedGroupid: Value)
    ensures var r := ChosenGroup(groups, groupid, cachedGroupid);
            r.Some? ==> exists i :: 0 <= i < |groups| && groups[i].val == r.value
  {
    var r := ChosenGroup(groups, groupid, cachedGroupid);
    if r.Some? && |groups| > 1 {
      if NonEmptyAt(groups, groupid).Some? {
        LookupIsEntry(groups, ToKey(groupid).value);
      } else if NonEmptyAt(groups, cachedGroupid).Some? {
        LookupIsEntry(groups, ToKey(cachedGroupid).value);
      }
    }
  }

  lemma LookupIsEntry(es: Entries, k: Key)
    requires Lookup(es, k).Some?
    ensures exists i :: 0 <= i < |es| && es[i].val == Lookup(es, k).value
  {
    var v := Lookup(es, k).value;
    assert exists e :: e in es && e.key == k && e.val == v;
  }

  // ---- user lists ----

  /** The items re-keyed one by one: `$res[key(v)] = val(v)`, skipping items
      that give no key; a later item overwrites an earlier one with the same
      key. */
  function KeyedBy(acc: Entries, vs: seq<Value>, keyOf: Value -> Option<Key>, valOf: Value -> Value): (r: Entries)
    ensures forall k :: Has(r, k) <==> Has(acc, k) || exists v :: v in vs && keyOf(v) == Some(k)
    ensures forall k :: Lookup(r, k).Some? ==>
              Lookup(r, k) == Lookup(acc, k) ||
              exists v :: v in vs && keyOf(v) == Some(k) && Lookup(r, k).value == valOf(v)
    decreases |vs|
  {
    if |vs| == 0 then acc
    else
      var next := match keyOf(vs[0]) case Some(k) => Set(acc, k, valOf(vs[0])) case None => acc;
      assert vs == [vs[0]] + vs[1..];
      KeyedBy(next, vs[1..], keyOf, valOf)
  }

  /** User objects keyed by their id, a later user overwriting an earlier
      one with the same id. */
  function ObjectsById(users: seq<Value>): (r: Entries)
    ensures forall k :: Has(r, k) <==> exists u :: u in users && IdKey(u) == k
    ensures forall k :: Lookup(r, k).Some? ==> exists u :: u in users && IdKey(u) == k && Lookup(r, k).value == u
  {
    var r := KeyedBy([], users, v => Some(IdKey(v)), v => v);
    assert forall k :: Lookup(r, k).Some? ==> Lookup(r, k) != Lookup([], k);
    r
  }

  /** Users looked up by id, keyed by that id. */
  function UsersByIds(ids: seq<Value>, getUser: Value -> Value): (r: Entries)
    ensures forall k :: Has(r, k) <==> exists id :: id in ids && ToKey(id) == Some(k)
  {
    KeyedBy([], ids, ToKey, getUser)
  }

  /** `get_user_list` on a non-empty array. */
  function UserListOf(list: Entries, getUser: Value -> Value): (r: Entries)
    requires list != []
    ensures list[0].key == IntKey(0) && list[0].val.Obj? ==> r == ObjectsById(ValuesOf(list))
    ensures list[0].key != IntKey(0) && list[0].val.Obj? ==> r == list
    ensures list[0].key == IntKey(0) && !list[0].val.Obj? ==> r == UsersByIds(ValuesOf(list), getUser)
    ensures list[0].key != IntKey(0) && !list[0].val.Obj? ==>
              r == UsersByIds(seq(|list|, i requires 0 <= i < |list| => KeyValue(list[i].key)), getUser)
  {
    if list[0].key == IntKey(0) then
      if list[0].val.Obj? then ObjectsById(ValuesOf(list)) else UsersByIds(ValuesOf(list), getUser)
    else if list[0].val.Obj? then list
    else UsersByIds(seq(|list|, i requires 0 <= i < |list| => KeyValue(list[i].key)), getUser)
  }

  /** `get_user_list`: a list of user objects is keyed by user id; a list of
      ids is keyed by id with each user looked up; an associative array of
      objects comes back unchanged; an associative array of anything else
      is looked up by its keys. `getUser` stands for `get_user`. */
  function GetUserList(idsOrUsers: Value, getUser: Value -> Value): (r: Entries)
    ensures Empty(idsOrUsers) ==> r == []
    ensures !Empty(idsOrUsers) ==> Util.Val2Arr(idsOrUsers, true) != [] &&
                                   r == UserListOf(Util.Val2Arr(idsOrUsers, true), getUser)
  {
    if Empty(idsOrUsers) then []
    else UserListOf(Util.Val2Arr(idsOrUsers, true), getUser)
  }

  // ---- caches ----

  /** The caches that depend on the current course. */
  const DEFAULT_KEYS: seq<string> := [
    "get_fast_modinfo", "get_course_and_cm_from_cmid", "get_course_activities",
    "get_availability_info_module", "get_course_groupids", "get_tags_by_cm",
    "_get_visibility_data_by_cm_user", "get_important_activities", "get_module_instance"]

  /** Whether the selection chooses a default key: by a truthy value under
      that key, or by listing it (`in_array`, a loose comparison). */
  predicate Selects(selected: Entries, key: string) {
    Truthy(At(selected, StrKey(key))) ||
    Util.InArray(Str(key), selected)
  }

  /** The default keys the selection chooses, in their default order. */
  function SelectedKeys(selected: Entries, keys: seq<string>): (r: seq<string>)
    ensures forall k :: k in r <==> k in keys && Selects(selected, k)
    ensures |r| <= |keys|
  {
    if |keys| == 0 then []
    else
      var rest := SelectedKeys(selected, keys[1..]);
      assert forall k :: k in keys <==> k == keys[0] || k in keys[1..];
      if Selects(selected, keys[0]) then [keys[0]] + rest else rest
  }

  /** The cache names `purge_course_depended_caches` removes: all default
      ones for an empty selection, otherwise exactly the selected default
      ones. */
  function PurgeKeys(selectedKeys: Value): (r: seq<string>)
    ensures Empty(selectedKeys) ==> r == DEFAULT_KEYS
    ensures forall k :: k in r ==> k in DEFAULT_KEYS
    ensures !Empty(selectedKeys) ==>
              forall k :: k in DEFAULT_KEYS ==> (k in r <==> Selects(Util.Val2Arr(selectedKeys, true), k))
  {
    if Empty(selectedKeys) then DEFAULT_KEYS
    else SelectedKeys(Util.Val2Arr(selectedKeys, true), DEFAULT_KEYS)
  }

  /** `purge_course_depended_caches` on the memo store: the chosen caches are
      gone and every other function's data is kept. */
  function PurgeCourseDependedCaches(store: Entries, selectedKeys: Value): (r: Entries)
    ensures forall k :: k in PurgeKeys(selectedKeys) ==> !Has(r, StrKey(k))
    ensures forall k :: (forall name :: name in PurgeKeys(selectedKeys) ==> StrKey(name) != k) ==> Lookup(r, k) == Lookup(store, k)
  {
    var keys := PurgeKeys(selectedKeys);
    DefaultKeysAreStringKeys();
    RemoveNamedCaches(store, keys);
    GlobalStore.GRemoveFunctionsData(store, Arr(List(Util.StrValues(keys))))
  }

  /** Removing caches named by strings that are not integer-like removes
      exactly those names. */
  lemma RemoveNamedCaches(store: Entries, keys: seq<string>)
    requires forall k :: k in keys ==> ToKey(Str(k)) == Some(StrKey(k))
    ensures var r := GlobalStore.GRemoveFunctionsData(store, Arr(List(Util.StrValues(keys))));
            (forall k :: k in keys ==> !Has(r, StrKey(k))) &&
            (forall k :: (forall name :: name in keys ==> StrKey(name) != k) ==> Lookup(r, k) == Lookup(store, k))
  {
    var names := Util.StrValues(keys);
    assert ValuesOf(GlobalStore.Val2List(Arr(List(names)))) == names;
    forall k | k in keys ensures Str(k) in names {
      var i :| 0 <= i < |keys| && keys[i] == k;
      assert names[i] == Str(k);
    }
    forall v | v in names ensures exists k :: k in keys && v == Str(k) {
      var i :| 0 <= i < |names| && names[i] == v;
      assert keys[i] in keys;
    }
  }

  /** Default cache names are not integer-like. */
  lemma DefaultKeysAreStringKeys()
    ensures forall k :: k in DEFAULT_KEYS ==> ToKey(Str(k)) == Some(StrKey(k))
  {
    forall k | k in DEFAULT_KEYS ensures ToKey(Str(k)) == Some(StrKey(k)) {
      DefaultKeyIsStringKey(k);
    }
  }

  lemma DefaultKeyIsStringKey(k: string)
    requires k in DEFAULT_KEYS
    ensures ToKey(Str(k)) == Some(StrKey(k))
  {
    assert forall i :: 0 <= i < |DEFAULT_KEYS| ==> |DEFAULT_KEYS[i]| > 0 && DEFAULT_KEYS[i][0] in "g_";
    NonNumericHeadIsStrKey(k);
  }

  /** A cache outside the defaults is never purged. */
  lemma PurgeKeepsOtherCaches(store: Entries, selectedKeys: Value, name: string)
    requires name !in DEFAULT_KEYS
    ensures Lookup(PurgeCourseDependedCaches(store, selectedKeys), StrKey(name)) == Lookup(store, StrKey(name))
  {
  }
}
