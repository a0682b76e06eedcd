/** The shared request-wide cache (`global_util`): a nested array addressed
    by a function name and further keys, with get, set, isset and remove. */
module GlobalStore {
  import opened Php
  import opened PhpArray

  /** `_g_get_g_keys($function, $add_keys)`: the function name followed by the
      extra keys; a scalar extra key is wrapped (null becoming 0). */
  function GKeys(function_: Value, addKeys: Value): (r: seq<Value>)
    ensures |r| > 0 && r[0] == function_
    ensures Empty(addKeys) ==> r == [function_]
  {
    if Empty(addKeys) then [function_]
    else if !addKeys.Arr? then [function_, addKeys]
    else
      MergeIntoKeepsIntPrefix(List([function_]), addKeys.entries);
      ValuesOf(MergeInto(List([function_]), addKeys.entries))
  }

  /** The extra keys as an array. */
  function Extra(addKeys: Value): Entries {
    if addKeys.Arr? then addKeys.entries else List([addKeys])
  }

  lemma MergeHead(f: Value)
    ensures MergeInto([], List([f])) == List([f])
  {
    MergeIntoList([], [f]);
    assert List([]) == [];
    assert [] + [f] == [f];
  }

  /** The key path is `array_merge([$function], $add_keys)` of the extra
      keys taken as an array. */
  lemma GKeysIsMerge(function_: Value, addKeys: Value)
    requires !Empty(addKeys)
    ensures GKeys(function_, addKeys) == ValuesOf(Merge(List([function_]), Extra(addKeys)))
  {
    if addKeys.Arr? {
      MergeHead(function_);
    } else {
      MergeScalar(function_, addKeys);
    }
  }

  lemma MergeScalar(f: Value, a: Value)
    ensures ValuesOf(Merge(List([f]), List([a]))) == [f, a]
  {
    MergeLists([f], [a]);
    assert [f] + [a] == [f, a];
    ListIsList([f, a]);
  }

  /** A list of extra keys follows the function name in order. */
  lemma GKeysOfList(function_: Value, addKeys: Value)
    requires addKeys.Arr? && forall i :: 0 <= i < |addKeys.entries| ==> addKeys.entries[i].key.IntKey?
    ensures GKeys(function_, addKeys) == [function_] + ValuesOf(addKeys.entries)
  {
    if !Empty(addKeys) {
      MergeIntoIntKeys([function_], addKeys.entries);
      ListIsList([function_] + ValuesOf(addKeys.entries));
    }
  }

  /** The array keys a key path converts to; `None` when one of its values
      cannot be an array key. */
  function KeyPath(vs: seq<Value>): (r: Option<seq<Key>>)
    ensures r.Some? <==> forall v :: v in vs ==> ToKey(v).Some?
    ensures r.Some? ==> |r.value| == |vs| &&
                        forall i :: 0 <= i < |vs| ==> Some(r.value[i]) == ToKey(vs[i])
  {
    if |vs| == 0 then Some([])
    else
      assert vs == [vs[0]] + vs[1..];
      match (ToKey(vs[0]), KeyPath(vs[1..]))
      case (Some(k), Some(ks)) =>
        KeyPathCons(vs[0], vs[1..], k, ks);
        Some([k] + ks)
      case _ => None
  }

  lemma KeyPathCons(v: Value, vs: seq<Value>, k: Key, ks: seq<Key>)
    requires ToKey(v) == Some(k)
    requires |ks| == |vs| && forall i :: 0 <= i < |vs| ==> Some(ks[i]) == ToKey(vs[i])
    ensures forall i :: 0 <= i < |[v] + vs| ==> Some(([k] + ks)[i]) == ToKey(([v] + vs)[i])
  {
    forall i | 0 <= i < |[v] + vs| ensures Some(([k] + ks)[i]) == ToKey(([v] + vs)[i]) {
      if i > 0 {
        assert ([k] + ks)[i] == ks[i - 1] && ([v] + vs)[i] == vs[i - 1];
      }
    }
  }

  /** `isset($obj[$key])` for one step of the walk: only an array holds
      entries. */
  predicate StepSet(store: Value, k: Key) {
    store.Arr? && Isset(store.entries, k)
  }

  /** The value a walk reaches, or `def` when a step is not set. */
  function Get(store: Value, path: seq<Key>, def: Value): (r: Value)
    ensures |path| > 0 && !StepSet(store, path[0]) ==> r == def
    ensures |path| == 0 ==> r == store
  {
    if |path| == 0 then store
    else if StepSet(store, path[0]) then Get(At(store.entries, path[0]), path[1..], def)
    else def
  }

  /** `g_isset`: every step of the walk is set. */
  predicate IsSet(store: Value, path: seq<Key>) {
    |path| == 0 || (StepSet(store, path[0]) && IsSet(At(store.entries, path[0]), path[1..]))
  }

  /** A set path reads the same whatever the default. */
  lemma {:induction false} IsSetGetIgnoresDefault(store: Value, path: seq<Key>, d1: Value, d2: Value)
    requires IsSet(store, path)
    ensures Get(store, path, d1) == Get(store, path, d2)
    ensures |path| > 0 ==> Get(store, path, d1) != Null
    decreases |path|
  {
    if |path| > 0 {
      IsSetGetIgnoresDefault(At(store.entries, path[0]), path[1..], d1, d2);
      if |path| == 1 {
        assert Isset(store.entries, path[0]);
      }
    }
  }

  /** Only null and false turn into an array when a key is written into them;
      any other scalar or object makes the write fail. */
  function Vivify(store: Value): Option<Entries> {
    if store.Arr? then Some(store.entries)
    else if store == Null || store == Bool(false) then Some([])
    else None
  }

  /** The value a write descends into under key `k`: the entry when it is
      set, otherwise the empty array the write creates there. */
  function ChildOf(store: Value, k: Key): Value {
    if StepSet(store, k) then At(store.entries, k) else Arr([])
  }

  /** The walk of a write never meets a value that cannot become an array. */
  predicate Writable(store: Value, path: seq<Key>)
    decreases |path|
  {
    |path| == 0 || (Vivify(store).Some? && Writable(ChildOf(store, path[0]), path[1..]))
  }

  /** The store after `g(..., $set_value = true)` writes `v` at `path`,
      creating empty arrays for steps that are not set; `None` when the walk
      meets a value that cannot become an array. A set step is an array
      already, so it keeps its entries. */
  function Put(store: Value, path: seq<Key>, v: Value): (r: Option<Value>)
    ensures |path| == 0 ==> r == Some(v)
    ensures |path| > 0 && r.Some? ==> r.value.Arr?
    decreases |path|
  {
    if |path| == 0 then Some(v)
    else
      match (Vivify(store), Put(ChildOf(store, path[0]), path[1..], v))
      case (Some(es), Some(c)) => Some(Arr(Set(es, path[0], c)))
      case _ => None
  }

  /** A write fails exactly when its walk meets a value that cannot become
      an array. */
  lemma {:induction false} PutSucceedsIffWritable(store: Value, path: seq<Key>, v: Value)
    ensures Put(store, path, v).Some? <==> Writable(store, path)
    decreases |path|
  {
    if |path| > 0 {
      PutSucceedsIffWritable(ChildOf(store, path[0]), path[1..], v);
    }
  }

  /** A write into a path none of whose steps is set succeeds whenever the
      top value is an array, null or false. */
  lemma PutFreshSucceeds(store: Value, path: seq<Key>, v: Value)
    requires |path| > 0 ==> Vivify(store).Some? && !StepSet(store, path[0])
    ensures Put(store, path, v).Some?
  {
    FreshWritable(store, path);
    PutSucceedsIffWritable(store, path, v);
  }

  lemma {:induction false} FreshWritable(store: Value, path: seq<Key>)
    requires |path| > 0 ==> Vivify(store).Some? && !StepSet(store, path[0])
    ensures Writable(store, path)
    decreases |path|
  {
    if |path| > 0 {
      assert ChildOf(store, path[0]) == Arr([]);
      FreshWritable(Arr([]), path[1..]);
    }
  }

  /** A written value reads back, except that a stored null reads as the
      default, as `isset` does not see it. */
  lemma {:induction false} GetAfterPut(store: Value, path: seq<Key>, v: Value, def: Value)
    requires Put(store, path, v).Some?
    ensures |path| > 0 ==> Get(Put(store, path, v).value, path, def) == (if v == Null then def else v)
    decreases |path|
  {
    if |path| > 0 {
      PutStep(store, path, v);
      var child := ChildOf(store, path[0]);
      var c := Put(child, path[1..], v).value;
      GetThroughSet(Vivify(store).value, path, c, def);
      if |path| > 1 {
        GetAfterPut(child, path[1..], v, def);
      }
    }
  }

  /** Reading a path through the key just written continues in the value
      written there, unless that value is null. */
  lemma GetThroughSet(es: Entries, path: seq<Key>, c: Value, def: Value)
    requires |path| > 0
    ensures Get(Arr(Set(es, path[0], c)), path, def) == if c == Null then def else Get(c, path[1..], def)
  {
    assert Lookup(Set(es, path[0], c), path[0]) == Some(c);
  }

  /** One step of a write: the entries written into and the new child. */
  lemma PutStep(store: Value, p: seq<Key>, v: Value)
    requires |p| > 0 && Put(store, p, v).Some?
    ensures Vivify(store).Some? && Put(ChildOf(store, p[0]), p[1..], v).Some?
    ensures Put(store, p, v).value == Arr(Set(Vivify(store).value, p[0], Put(ChildOf(store, p[0]), p[1..], v).value))
  {
  }

  /** Writing one key of an array leaves the paths under every other key
      unchanged. */
  lemma GetUnderOtherKey(es: Entries, k: Key, c: Value, q: seq<Key>, def: Value)
    requires 0 < |q| && q[0] != k
    ensures Get(Arr(Set(es, k, c)), q, def) == Get(Arr(es), q, def)
  {
    assert Lookup(Set(es, k, c), q[0]) == Lookup(es, q[0]);
  }

  /** A write under one top key leaves the paths under every other top key
      unchanged. */
  lemma PutFrameHere(store: Value, p: seq<Key>, q: seq<Key>, v: Value, def: Value)
    requires Put(store, p, v).Some?
    requires 0 < |p| && 0 < |q| && p[0] != q[0]
    ensures Get(Put(store, p, v).value, q, def) == Get(store, q, def)
  {
    PutStep(store, p, v);
    var es := Vivify(store).value;
    GetUnderOtherKey(es, p[0], Put(ChildOf(store, p[0]), p[1..], v).value, q, def);
    assert Get(Arr(es), q, def) == Get(store, q, def) by {
      if store.Arr? {
        assert Arr(es) == store;
      } else {
        assert es == [];
      }
    }
  }

  /** Reading below the key just written looks into the new child. */
  lemma PutFrameBelow(store: Value, p: seq<Key>, q: seq<Key>, v: Value, def: Value)
    requires Put(store, p, v).Some?
    requires 1 < |p| && 1 < |q| && p[0] == q[0]
    ensures Put(ChildOf(store, p[0]), p[1..], v).Some?
    ensures Get(Put(store, p, v).value, q, def) == Get(Put(ChildOf(store, p[0]), p[1..], v).value, q[1..], def)
    ensures Get(store, q, def) == Get(ChildOf(store, p[0]), q[1..], def)
  {
    PutStep(store, p, v);
    var c := Put(ChildOf(store, p[0]), p[1..], v).value;
    assert Lookup(Put(store, p, v).value.entries, q[0]) == Some(c);
    assert c.Arr?;
  }

  /** Two key paths agree on their first `i` keys and differ at key `i`. */
  predicate DivergeAt(p: seq<Key>, q: seq<Key>, i: nat) {
    i < |p| && i < |q| && (forall j :: 0 <= j < i ==> p[j] == q[j]) && p[i] != q[i]
  }

  lemma DivergeTails(p: seq<Key>, q: seq<Key>, i: nat)
    requires DivergeAt(p, q, i) && i > 0
    ensures p[0] == q[0] && DivergeAt(p[1..], q[1..], i - 1)
  {
    assert forall j :: 0 <= j < i - 1 ==> p[1..][j] == p[j + 1] && q[1..][j] == q[j + 1];
  }

  /** A write leaves every path that diverges from it unchanged. */
  lemma {:induction false} PutFrame(store: Value, p: seq<Key>, q: seq<Key>, v: Value, def: Value, i: nat)
    requires Put(store, p, v).Some?
    requires DivergeAt(p, q, i)
    ensures Get(Put(store, p, v).value, q, def) == Get(store, q, def)
    decreases i
  {
    if i == 0 {
      PutFrameHere(store, p, q, v, def);
    } else {
      DivergeTails(p, q, i);
      PutFrameBelow(store, p, q, v, def);
      PutFrame(ChildOf(store, p[0]), p[1..], q[1..], v, def, i - 1);
    }
  }

  /** `g_get`: the stored value at the key path, or `def`. An extra key that
      cannot be an array key is reported as `None`. */
  function GGet(store: Value, function_: Value, addKeys: Value, def: Value): (r: Option<Value>)
    ensures KeyPath(GKeys(function_, addKeys)).None? <==> r.None?
    ensures r.Some? ==> r.value == Get(store, KeyPath(GKeys(function_, addKeys)).value, def)
  {
    match KeyPath(GKeys(function_, addKeys))
    case None => None
    case Some(path) => Some(Get(store, path, def))
  }

  /** The value `g_set` stores: null becomes false unless `$save_null`. */
  function StoredValue(v: Value, saveNull: bool): (r: Value)
    ensures r == Null <==> v == Null && saveNull
    ensures v != Null ==> r == v
  {
    if v == Null && !saveNull then Bool(false) else v
  }

  /** `g_set`: the new store and the value it returns, which is the value
      stored. */
  function GSet(store: Value, function_: Value, addKeys: Value, v: Value, saveNull: bool): (r: Option<(Value, Value)>)
    ensures r.Some? ==> r.value.1 == StoredValue(v, saveNull)
    ensures r.Some? <==> KeyPath(GKeys(function_, addKeys)).Some? &&
                         Writable(store, KeyPath(GKeys(function_, addKeys)).value)
    ensures r.Some? ==> KeyPath(GKeys(function_, addKeys)).Some?
  {
    match KeyPath(GKeys(function_, addKeys))
    case None => None
    case Some(path) =>
      var stored := StoredValue(v, saveNull);
      PutSucceedsIffWritable(store, path, stored);
      match Put(store, path, stored)
      case None => None
      case Some(s') => Some((s', stored))
  }

  /** After `g_set` without `$save_null`, `g_isset` holds and `g_get` returns
      the stored value (false for null). */
  lemma GSetThenGet(store: Value, function_: Value, addKeys: Value, v: Value, def: Value)
    requires GSet(store, function_, addKeys, v, false).Some?
    ensures var s' := GSet(store, function_, addKeys, v, false).value.0;
            GGet(s', function_, addKeys, def) == Some(StoredValue(v, false))
  {
    var path := KeyPath(GKeys(function_, addKeys)).value;
    assert |path| > 0;
    GetAfterPut(store, path, StoredValue(v, false), def);
  }

  /** `g_isset` on the key path. */
  function GIsset(store: Value, function_: Value, addKeys: Value): (r: bool)
    ensures r ==> KeyPath(GKeys(function_, addKeys)).Some?
  {
    match KeyPath(GKeys(function_, addKeys))
    case None => false
    case Some(path) => IsSet(store, path)
  }

  /** Whatever `g_isset` reports set, `g_get` finds, whatever the default. */
  lemma GIssetMeansGetIgnoresDefault(store: Value, function_: Value, addKeys: Value, d1: Value, d2: Value)
    requires GIsset(store, function_, addKeys)
    ensures GGet(store, function_, addKeys, d1) == GGet(store, function_, addKeys, d2)
    ensures GGet(store, function_, addKeys, d1).value != Null
  {
    var path := KeyPath(GKeys(function_, addKeys)).value;
    assert |path| > 0;
    IsSetGetIgnoresDefault(store, path, d1, d2);
  }

  /** `g_remove` on a path: unsets the last key when every step is set, and
      reports whether it did. */
  function RemoveAt(store: Value, path: seq<Key>): (r: (Value, bool))
    requires |path| > 0
    ensures r.1 <==> IsSet(store, path)
    ensures !r.1 ==> r.0 == store
    ensures r.1 ==> !IsSet(r.0, path)
    ensures r.1 ==> r.0.Arr?
    decreases |path|
  {
    if !StepSet(store, path[0]) then (store, false)
    else if |path| == 1 then
      var es' := Remove(store.entries, path[0]);
      assert !Isset(es', path[0]);
      (Arr(es'), true)
    else
      var child := At(store.entries, path[0]);
      var (c, ok) := RemoveAt(child, path[1..]);
      if ok then
        var es' := Set(store.entries, path[0], c);
        assert At(es', path[0]) == c;
        (Arr(es'), true)
      else (store, false)
  }

  /** Unsetting a path leaves every path that diverges from it unchanged. */
  lemma {:induction false} RemoveAtFrame(store: Value, p: seq<Key>, q: seq<Key>, def: Value, i: nat)
    requires |p| > 0 && DivergeAt(p, q, i)
    ensures Get(RemoveAt(store, p).0, q, def) == Get(store, q, def)
    decreases |p|
  {
    if StepSet(store, p[0]) {
      var es := store.entries;
      if |p| == 1 {
        assert Lookup(Remove(es, p[0]), q[0]) == Lookup(es, q[0]);
      } else {
        var child := At(es, p[0]);
        var (c, ok) := RemoveAt(child, p[1..]);
        if ok {
          if i == 0 {
            GetUnderOtherKey(es, p[0], c, q, def);
          } else {
            DivergeTails(p, q, i);
            assert Lookup(Set(es, p[0], c), q[0]) == Some(c);
            RemoveAtFrame(child, p[1..], q[1..], def, i - 1);
          }
        }
      }
    }
  }

  /** `g_remove`: the new store and whether something was removed. */
  function GRemove(store: Value, function_: Value, addKeys: Value): (r: (Value, bool))
    ensures r.1 <==> GIsset(store, function_, addKeys)
    ensures !r.1 ==> r.0 == store
    ensures r.1 ==> !GIsset(r.0, function_, addKeys)
  {
    match KeyPath(GKeys(function_, addKeys))
    case None => (store, false)
    case Some(path) =>
      assert |path| > 0;
      RemoveAt(store, path)
  }

  /** `g_remove` leaves `g_get` of every other entry whose key path
      diverges from the removed one unchanged. */
  lemma GRemoveFrame(store: Value, function_: Value, addKeys: Value, function2: Value, addKeys2: Value, def: Value, i: nat)
    requires KeyPath(GKeys(function_, addKeys)).Some? && KeyPath(GKeys(function2, addKeys2)).Some?
    requires DivergeAt(KeyPath(GKeys(function_, addKeys)).value, KeyPath(GKeys(function2, addKeys2)).value, i)
    ensures GGet(GRemove(store, function_, addKeys).0, function2, addKeys2, def) == GGet(store, function2, addKeys2, def)
  {
    RemoveAtFrame(store, KeyPath(GKeys(function_, addKeys)).value, KeyPath(GKeys(function2, addKeys2)).value, def, i);
  }

  /** `g_remove_functions_data`: unsets the top-level entry of each named
      function (a single name or an array of names). */
  function GRemoveFunctionsData(store: Entries, functions: Value): (r: Entries)
    ensures forall v :: v in ValuesOf(Val2List(functions)) && ToKey(v).Some? ==> !Has(r, ToKey(v).value)
    ensures forall k :: (forall v :: v in ValuesOf(Val2List(functions)) ==> ToKey(v) != Some(k)) ==>
              Lookup(r, k) == Lookup(store, k)
  {
    RemoveAll(store, ValuesOf(Val2List(functions)))
  }

  function Val2List(v: Value): Entries {
    if v.Arr? then v.entries else List([v])
  }

  function RemoveAll(store: Entries, names: seq<Value>): (r: Entries)
    ensures forall v :: v in names && ToKey(v).Some? ==> !Has(r, ToKey(v).value)
    ensures forall k :: (forall v :: v in names ==> ToKey(v) != Some(k)) ==> Lookup(r, k) == Lookup(store, k)
    decreases |names|
  {
    if |names| == 0 then store
    else
      var init, last := names[..|names| - 1], names[|names| - 1];
      assert names == init + [last];
      var rest := RemoveAll(store, init);
      match ToKey(last)
      case Some(k) => Remove(rest, k)
      case None => rest
  }

  /** `g_remove_all_ned_data`: the store becomes an empty array, where no
      path is set. */
  function GRemoveAllNedData(): (r: Value)
    ensures forall path :: |path| > 0 ==> !IsSet(r, path)
  {
    Arr([])
  }
}
