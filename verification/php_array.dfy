/** Ordered PHP arrays: a sequence of entries whose keys are distinct, with the
    operations the plugin uses (`$a[$k] = $v`, `unset`, `$a[] = $v`,
    `array_merge`, `array_values`, filtering). */
module PhpArray {
  import opened Php

  type Entries = seq<Entry>

  function KeysOf(es: Entries): (r: seq<Key>)
    ensures |r| == |es|
    ensures forall i :: 0 <= i < |es| ==> r[i] == es[i].key
  {
    if |es| == 0 then [] else [es[0].key] + KeysOf(es[1..])
  }

  function ValuesOf(es: Entries): (r: seq<Value>)
    ensures |r| == |es|
    ensures forall i :: 0 <= i < |es| ==> r[i] == es[i].val
  {
    if |es| == 0 then [] else [es[0].val] + ValuesOf(es[1..])
  }

  predicate UniqueKeys(es: Entries) {
    forall i, j :: 0 <= i < j < |es| ==> es[i].key != es[j].key
  }

  /** `array_key_exists($k, $a)`. */
  predicate Has(es: Entries, k: Key) {
    Lookup(es, k).Some?
  }

  /** `isset($a[$k])`: present and not null. */
  predicate Isset(es: Entries, k: Key) {
    var r := Lookup(es, k);
    r.Some? && r.value != Null
  }

  /** `$a[$k] ?? null`. */
  function At(es: Entries, k: Key): Value {
    match Lookup(es, k)
    case Some(v) => v
    case None => Null
  }

  /** The position of the entry with key `k`, if any. */
  function FindKey(es: Entries, k: Key): (r: Option<nat>)
    ensures r.Some? ==> r.value < |es| && es[r.value].key == k
    ensures r.None? ==> forall e :: e in es ==> e.key != k
    decreases |es|
  {
    if |es| == 0 then None
    else if es[0].key == k then Some(0)
    else match FindKey(es[1..], k)
      case None => None
      case Some(i) => Some(i + 1)
  }

  /** A lookup reads the entry at the position of the key. */
  lemma {:induction false} LookupFound(es: Entries, k: Key)
    ensures Lookup(es, k) == match FindKey(es, k) case Some(i) => Some(es[i].val) case None => None
    decreases |es|
  {
    if |es| > 0 && es[0].key != k {
      LookupFound(es[1..], k);
    }
  }

  /** Arrays with the same keys in the same order find every key at the
      same position. */
  lemma {:induction false} FindKeyByKeys(a: Entries, b: Entries, k: Key)
    requires |a| == |b| && forall j :: 0 <= j < |a| ==> a[j].key == b[j].key
    ensures FindKey(a, k) == FindKey(b, k)
    decreases |a|
  {
    if |a| > 0 && a[0].key != k {
      FindKeyByKeys(a[1..], b[1..], k);
    }
  }

  /** A key is found in the extended array where it was found before, or at
      the new entry. */
  lemma {:induction false} FindKeyAppend(es: Entries, e: Entry, k: Key)
    ensures FindKey(es + [e], k) == if FindKey(es, k).Some? then FindKey(es, k) else if e.key == k then Some(|es|) else None
    decreases |es|
  {
    if |es| > 0 {
      assert (es + [e])[1..] == es[1..] + [e];
      FindKeyAppend(es[1..], e, k);
    }
  }

  /** Overwriting the entry of `k` changes the lookup of `k` only. */
  lemma SetFound(es: Entries, i: nat, k: Key, v: Value, k': Key)
    requires FindKey(es, k) == Some(i)
    ensures Lookup(es[i := Entry(k, v)], k') == if k' == k then Some(v) else Lookup(es, k')
  {
    var r := es[i := Entry(k, v)];
    FindKeyByKeys(es, r, k');
    LookupFound(es, k');
    LookupFound(r, k');
  }

  /** Appending an entry for a missing key `k` changes the lookup of `k`
      only. */
  lemma SetAppended(es: Entries, k: Key, v: Value, k': Key)
    requires FindKey(es, k).None?
    ensures Lookup(es + [Entry(k, v)], k') == if k' == k then Some(v) else Lookup(es, k')
  {
    FindKeyAppend(es, Entry(k, v), k');
    LookupFound(es, k');
    LookupFound(es + [Entry(k, v)], k');
  }

  /** `$a[$k] = $v`: overwrite in place, or append a new entry. */
  function Set(es: Entries, k: Key, v: Value): (r: Entries)
    ensures Lookup(r, k) == Some(v)
    ensures forall k' :: k' != k ==> Lookup(r, k') == Lookup(es, k')
    ensures Has(es, k) ==> |r| == |es|
    ensures !Has(es, k) ==> r == es + [Entry(k, v)]
    ensures |r| >= |es| && forall i :: 0 <= i < |es| && es[i].key != k ==> r[i] == es[i]
  {
    LookupFound(es, k);
    match FindKey(es, k)
    case Some(i) =>
      var r := es[i := Entry(k, v)];
      assert forall k' :: Lookup(r, k') == if k' == k then Some(v) else Lookup(es, k') by {
        forall k' { SetFound(es, i, k, v, k'); }
      }
      r
    case None =>
      var r := es + [Entry(k, v)];
      assert forall k' :: Lookup(r, k') == if k' == k then Some(v) else Lookup(es, k') by {
        forall k' { SetAppended(es, k, v, k'); }
      }
      r
  }

  /** `unset($a[$k])`. */
  function Remove(es: Entries, k: Key): (r: Entries)
    ensures !Has(r, k)
    ensures forall k' :: k' != k ==> Lookup(r, k') == Lookup(es, k')
    ensures forall e :: e in r ==> e in es
  {
    if |es| == 0 then []
    else if es[0].key == k then Remove(es[1..], k)
    else
      var rest := Remove(es[1..], k);
      assert ([es[0]] + rest)[1..] == rest;
      [es[0]] + rest
  }

  /** The entries that satisfy `keep`, in their original order. */
  function Filter(es: Entries, keep: Entry -> bool): (r: Entries)
    ensures forall e :: e in r <==> e in es && keep(e)
    ensures |r| <= |es|
  {
    if |es| == 0 then []
    else
      var rest := Filter(es[1..], keep);
      assert forall e :: e in es <==> e == es[0] || e in es[1..];
      if keep(es[0]) then [es[0]] + rest else rest
  }

  /** Filtering a concatenation filters each part in place. */
  lemma {:induction false} FilterConcat(a: Entries, b: Entries, keep: Entry -> bool)
    ensures Filter(a + b, keep) == Filter(a, keep) + Filter(b, keep)
    decreases |a|
  {
    if |a| > 0 {
      assert (a + b)[0] == a[0] && (a + b)[1..] == a[1..] + b;
      FilterConcat(a[1..], b, keep);
    } else {
      assert a + b == b;
    }
  }

  /** A filter that keeps every entry changes nothing. */
  lemma {:induction false} FilterKeepAll(es: Entries, keep: Entry -> bool)
    requires forall e :: e in es ==> keep(e)
    ensures Filter(es, keep) == es
    decreases |es|
  {
    if |es| > 0 {
      assert es[0] in es;
      FilterKeepAll(es[1..], keep);
    }
  }

  /** The smallest index `$a[] = $v` may use: one more than the largest
      integer key, and never below 0. */
  function NextIndex(es: Entries): (r: int)
    ensures r >= 0
    ensures forall i :: 0 <= i < |es| && es[i].key.IntKey? ==> es[i].key.i < r
  {
    if |es| == 0 then 0
    else
      var m := NextIndex(es[1..]);
      assert forall i :: 0 < i < |es| ==> es[i] == es[1..][i - 1];
      if es[0].key.IntKey? && es[0].key.i + 1 > m then es[0].key.i + 1 else m
  }

  lemma NotHasBeyondNext(es: Entries)
    ensures !Has(es, IntKey(NextIndex(es)))
  {
  }

  /** `$a[] = $v`. */
  function Push(es: Entries, v: Value): (r: Entries)
    ensures r == es + [Entry(IntKey(NextIndex(es)), v)]
  {
    NotHasBeyondNext(es);
    Set(es, IntKey(NextIndex(es)), v)
  }

  /** The list `[v0, v1, ...]`: keys 0, 1, ... in order. */
  function List(vs: seq<Value>): (r: Entries)
    ensures |r| == |vs|
    ensures forall i :: 0 <= i < |vs| ==> r[i] == Entry(IntKey(i), vs[i])
  {
    seq(|vs|, i requires 0 <= i < |vs| => Entry(IntKey(i), vs[i]))
  }

  /** An array whose keys are exactly 0, 1, ... in order. */
  predicate IsList(es: Entries) {
    forall i :: 0 <= i < |es| ==> es[i].key == IntKey(i)
  }

  lemma ListIsList(vs: seq<Value>)
    ensures IsList(List(vs)) && ValuesOf(List(vs)) == vs
  {
  }

  lemma ListUnique(vs: seq<Value>)
    ensures UniqueKeys(List(vs))
  {
  }

  lemma {:induction false} NextIndexOfList(es: Entries)
    requires IsList(es)
    ensures NextIndex(es) == |es|
    decreases |es|
  {
    if |es| > 0 {
      // NextIndex scans from the front; relate it to the suffix, whose keys are shifted.
      NextIndexOfShiftedList(es[1..], 1);
    }
  }

  lemma {:induction false} NextIndexOfShiftedList(es: Entries, off: nat)
    requires forall i :: 0 <= i < |es| ==> es[i].key == IntKey(i + off)
    ensures NextIndex(es) == if |es| == 0 then 0 else |es| + off
    decreases |es|
  {
    if |es| > 0 {
      NextIndexOfShiftedList(es[1..], off + 1);
    }
  }

  /** `array_values`: the values, renumbered from 0. */
  function Values(es: Entries): (r: Entries)
    ensures IsList(r) && ValuesOf(r) == ValuesOf(es)
  {
    List(ValuesOf(es))
  }

  /** One step of `array_merge`: integer keys are renumbered (appended),
      string keys overwrite in place or are appended. */
  function MergeEntry(acc: Entries, e: Entry): Entries {
    if e.key.IntKey? then Push(acc, e.val) else Set(acc, e.key, e.val)
  }

  function MergeInto(acc: Entries, es: Entries): Entries
    decreases |es|
  {
    if |es| == 0 then acc else MergeInto(MergeEntry(acc, es[0]), es[1..])
  }

  /** Merging into an accumulator keeps its integer-keyed entries in place. */
  lemma {:induction false} MergeIntoKeepsIntPrefix(acc: Entries, es: Entries)
    ensures |MergeInto(acc, es)| >= |acc|
    ensures forall i :: 0 <= i < |acc| && acc[i].key.IntKey? ==> MergeInto(acc, es)[i] == acc[i]
    decreases |es|
  {
    if |es| > 0 {
      MergeIntoKeepsIntPrefix(MergeEntry(acc, es[0]), es[1..]);
    }
  }

  /** PHP `array_merge($a, $b)`. */
  function Merge(a: Entries, b: Entries): Entries {
    MergeInto(MergeInto([], a), b)
  }

  lemma ConcatAssoc<T>(a: seq<T>, b: seq<T>, c: seq<T>)
    ensures (a + b) + c == a + (b + c)
  {
  }

  lemma ListSnoc(acc: seq<Value>, v: Value)
    ensures List(acc) + [Entry(IntKey(|acc|), v)] == List(acc + [v])
  {
  }

  /** Entries with integer keys are appended in order, whatever their keys. */
  lemma {:induction false} MergeIntoIntKeys(acc: seq<Value>, es: Entries)
    requires forall i :: 0 <= i < |es| ==> es[i].key.IntKey?
    ensures MergeInto(List(acc), es) == List(acc + ValuesOf(es))
    decreases |es|
  {
    if |es| > 0 {
      var l := List(acc);
      var v := es[0].val;
      NextIndexOfList(l);
      var step := MergeEntry(l, es[0]);
      assert step == Push(l, v);
      ListSnoc(acc, v);
      assert step == List(acc + [v]);
      assert MergeInto(l, es) == MergeInto(step, es[1..]);
      MergeIntoIntKeys(acc + [v], es[1..]);
      var tail := ValuesOf(es[1..]);
      assert ValuesOf(es) == [v] + tail;
      ConcatAssoc(acc, [v], tail);
    } else {
      assert acc + ValuesOf(es) == acc;
    }
  }

  lemma MergeIntoList(acc: seq<Value>, vs: seq<Value>)
    ensures MergeInto(List(acc), List(vs)) == List(acc + vs)
  {
    MergeIntoIntKeys(acc, List(vs));
    assert ValuesOf(List(vs)) == vs;
  }

  /** Merging two lists concatenates them. */
  lemma MergeLists(xs: seq<Value>, ys: seq<Value>)
    ensures Merge(List(xs), List(ys)) == List(xs + ys)
  {
    MergeIntoList([], xs);
    assert [] + xs == xs;
    MergeIntoList(xs, ys);
  }

  /** Every string key of either side survives `array_merge`. */
  lemma {:induction false} MergeIntoKeepsStringKeys(acc: Entries, es: Entries, k: Key)
    requires k.StrKey?
    ensures Has(acc, k) ==> Has(MergeInto(acc, es), k)
    ensures Has(es, k) ==> Has(MergeInto(acc, es), k)
    decreases |es|
  {
    if |es| > 0 {
      var next := MergeEntry(acc, es[0]);
      assert Has(acc, k) ==> Has(next, k);
      assert es[0].key == k ==> Has(next, k);
      assert Has(es, k) ==> es[0].key == k || Has(es[1..], k);
      MergeIntoKeepsStringKeys(next, es[1..], k);
    }
  }

  /** `array_merge($a, $b)` keeps every string key of `$a` and of `$b`. */
  lemma MergeKeepsStringKeys(a: Entries, b: Entries, k: Key)
    requires k.StrKey?
    ensures Has(a, k) || Has(b, k) ==> Has(Merge(a, b), k)
  {
    MergeIntoKeepsStringKeys([], a, k);
    MergeIntoKeepsStringKeys(MergeInto([], a), b, k);
  }
}
