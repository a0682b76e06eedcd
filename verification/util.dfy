/** The general helpers of the shared `util` class: argument folding, ids,
    the string/array conversions used for CSS class lists, prefix handling,
    free-key insertion, key building and the "time ago" formatter. */
module Util {
  import opened Php
  import opened PhpArray

  /** `any(...$args)`: the first truthy argument, or `false`. */
  function Any(args: seq<Value>): (r: Value)
    ensures Truthy(r) <==> exists i :: 0 <= i < |args| && Truthy(args[i])
    ensures Truthy(r) ==> exists i :: 0 <= i < |args| && args[i] == r &&
                                      forall j :: 0 <= j < i ==> !Truthy(args[j])
    ensures !Truthy(r) ==> r == Bool(false)
  {
    if |args| == 0 then Bool(false)
    else if Truthy(args[0]) then args[0]
    else
      var r := Any(args[1..]);
      assert forall i :: 0 < i < |args| ==> args[i] == args[1..][i - 1];
      r
  }

  /** `all(...$args)`: no argument is falsy. */
  function All(args: seq<Value>): (r: bool)
    ensures r <==> forall i :: 0 <= i < |args| ==> Truthy(args[i])
  {
    if |args| == 0 then true
    else
      assert forall i :: 0 < i < |args| ==> args[i] == args[1..][i - 1];
      Truthy(args[0]) && All(args[1..])
  }

  /** `any` and `all` are dual: all arguments hold exactly when no negated
      argument is truthy. */
  lemma AllIsNotAnyFalsy(args: seq<Value>)
    ensures All(args) <==> !Truthy(Any(seq(|args|, i requires 0 <= i < |args| => Bool(!Truthy(args[i])))))
  {
    var neg := seq(|args|, i requires 0 <= i < |args| => Bool(!Truthy(args[i])));
    assert forall i :: 0 <= i < |args| ==> (Truthy(neg[i]) <==> !Truthy(args[i]));
  }

  /** `get_id($obj)`: a numeric argument is cast to int; otherwise the
      object's `id` property, 0 when absent. */
  function GetId(obj: Value): (r: int)
    ensures obj.Int? ==> r == obj.i
    ensures obj.Str? && IsNumericStr(obj.s) ==> r == StrToInt(obj.s)
    ensures obj.Obj? && !HasProp(obj, "id") ==> r == 0
    ensures obj.Obj? && Prop(obj, "id").Int? ==> r == Prop(obj, "id").i
    ensures !IsNumeric(obj) && !obj.Obj? ==> r == 0
  {
    if IsNumeric(obj) then IntCast(obj) else IntCast(Prop(obj, "id"))
  }

  /** An id written as a string reads back as that id. */
  lemma GetIdOfIntString(i: int)
    ensures GetId(Str(IntToStr(i))) == i
  {
    IntToStrRoundTrip(i);
    assert IsNumericStr(IntToStr(i));
  }

  // ---- arr2str / str2arr ----

  function StrsOf(vs: seq<Value>): (r: seq<string>)
    ensures |r| == |vs| && forall i :: 0 <= i < |vs| ==> r[i] == ToStr(vs[i])
  {
    seq(|vs|, i requires 0 <= i < |vs| => ToStr(vs[i]))
  }

  function StrValues(ss: seq<string>): (r: seq<Value>)
    ensures |r| == |ss| && forall i :: 0 <= i < |ss| ==> r[i] == Str(ss[i])
  {
    seq(|ss|, i requires 0 <= i < |ss| => Str(ss[i]))
  }

  lemma StrsOfStrValues(ss: seq<string>)
    ensures StrsOf(StrValues(ss)) == ss
  {
  }

  /** The part of `arr2str` before `$add`: the imploded array or the scalar. */
  function Arr2StrBase(list: Value, sep: string): string {
    match list
    case Arr(es) => Join(sep, StrsOf(ValuesOf(es)))
    case Obj(_, _) => ""
    case _ => ToStr(list)
  }

  /** `arr2str($list, $add, $separator)`: an empty, non-numeric list yields
      `$add` as it is; otherwise the imploded list, followed by the separator
      and `$add` when `$add` is a non-empty or numeric scalar. The separator
      is only written between two non-empty parts. */
  function Arr2Str(list: Value, add: Value, sep: string): (r: Value)
    ensures Empty(list) && !IsNumeric(list) ==> r == add
    ensures !(Empty(list) && !IsNumeric(list)) ==> r.Str? && StartsWith(r.s, Arr2StrBase(list, sep))
    ensures !(Empty(list) && !IsNumeric(list)) && ((Empty(add) && !IsNumeric(add)) || !IsScalar(add)) ==>
              r == Str(Arr2StrBase(list, sep))
    ensures !(Empty(list) && !IsNumeric(list)) && (!Empty(add) || IsNumeric(add)) && IsScalar(add) ==>
              var base := Arr2StrBase(list, sep);
              r == Str(if base == "" then ToStr(add) else base + sep + ToStr(add))
  {
    if Empty(list) && !IsNumeric(list) then add
    else
      var res := Arr2StrBase(list, sep);
      if (!Empty(add) || IsNumeric(add)) && IsScalar(add) then
        var glue := if !Empty(Str(res)) || IsNumericStr(res) then sep else "";
        NonEmptyText(res);
        Str(res + glue + ToStr(add))
      else Str(res)
  }

  /** A text is non-empty or numeric exactly when it is not "": "0" is
      empty to PHP but numeric. */
  lemma NonEmptyText(s: string)
    ensures (!Empty(Str(s)) || IsNumericStr(s)) <==> s != ""
  {
    assert s == "0" ==> AllDigits(s);
  }

  /** Imploding a list of strings with a text added is imploding the list
      with that text appended. */
  lemma Arr2StrAppends(parts: seq<string>, add: string, sep: string)
    requires |parts| > 0 && Join(sep, parts) != "" && add != ""
    ensures Arr2Str(Arr(List(StrValues(parts))), Str(add), sep) == Str(Join(sep, parts + [add]))
  {
    var vs := StrValues(parts);
    ListIsList(vs);
    StrsOfStrValues(parts);
    assert Arr2StrBase(Arr(List(vs)), sep) == Join(sep, parts);
    NonEmptyText(add);
    JoinSnoc(sep, parts, add);
  }

  /** `$add` of `str2arr` as an array: a non-array is wrapped in a list. */
  function AddAsArray(add: Value): (r: Entries)
    ensures add.Arr? ==> r == add.entries
    ensures !add.Arr? ==> r == List([add])
  {
    if add.Arr? then add.entries else List([add])
  }

  /** `str2arr` exactly as the source writes it: an array argument falls into
      the "wrong type" branch and contributes nothing. */
  function Str2ArrAsWritten(str: Value, add: Value, sep: string): (r: Entries)
    requires str.Str? && str.s != "" ==> |sep| > 0
    ensures Empty(str) && !IsNumeric(str) ==> r == AddAsArray(add)
    ensures str.Arr? && str.entries != [] && add == Arr([]) ==> r == []
    ensures str.Str? && str.s != "" && AddAsArray(add) == [] ==> r == List(StrValues(Split(str.s, sep)))
  {
    var extra := AddAsArray(add);
    if Empty(str) && !IsNumeric(str) then extra
    else
      NonEmptyText(if str.Str? then str.s else "");
      var res := match str
        case Str(s) => List(StrValues(Split(s, sep)))
        case Obj(_, props) => props
        case _ => [];
      if |extra| > 0 then Merge(res, extra) else res
  }

  /** A non-empty array given to `str2arr` is dropped, although the function
      is documented to return an array argument as it is. */
  lemma Str2ArrAsWrittenDropsArray()
    ensures Str2ArrAsWritten(Arr(List([Str("a")])), Arr([]), " ") == []
    ensures List([Str("a")]) != []
  {
  }

  /** `str2arr($str, $add, $separator)` with the documented array case: a
      string is exploded on the separator, an object becomes its property
      array, an array is kept; a non-empty `$add` is then merged in. An
      empty, non-numeric `$str` yields `$add` as an array. */
  function Str2Arr(str: Value, add: Value, sep: string): (r: Entries)
    requires str.Str? && str.s != "" ==> |sep| > 0
    ensures Empty(str) && !IsNumeric(str) ==> r == AddAsArray(add)
    ensures str.Arr? && AddAsArray(add) == [] ==> r == str.entries
    ensures str.Str? && AddAsArray(add) == [] && (!Empty(str) || IsNumeric(str)) ==>
              IsList(r) && |r| == |Split(str.s, sep)|
    ensures str.Str? && add.Arr? && (!Empty(str) || IsNumeric(str)) &&
            (forall i :: 0 <= i < |add.entries| ==> add.entries[i].key.IntKey?) ==>
              r == List(StrValues(Split(str.s, sep)) + ValuesOf(add.entries))
  {
    var extra := AddAsArray(add);
    if Empty(str) && !IsNumeric(str) then extra
    else
      NonEmptyText(if str.Str? then str.s else "");
      var res := match str
        case Str(s) => List(StrValues(Split(s, sep)))
        case Obj(_, props) => props
        case Arr(es) => es
        case _ => [];
      if |extra| > 0 then
        if str.Str? && add.Arr? && forall i :: 0 <= i < |add.entries| ==> add.entries[i].key.IntKey? then
          MergeAll(StrValues(Split(str.s, sep)), add.entries);
          Merge(res, extra)
        else Merge(res, extra)
      else if str.Str? then
        ListIsList(StrValues(Split(str.s, sep)));
        assert StrValues(Split(str.s, sep)) + ValuesOf(extra) == StrValues(Split(str.s, sep));
        res
      else res
  }

  /** The two readings of `str2arr` differ only on arrays. */
  lemma Str2ArrAsWrittenOffArrays(str: Value, add: Value, sep: string)
    requires str.Str? && str.s != "" ==> |sep| > 0
    requires !str.Arr?
    ensures Str2ArrAsWritten(str, add, sep) == Str2Arr(str, add, sep)
  {
  }

  lemma MergeAll(xs: seq<Value>, es: Entries)
    requires forall i :: 0 <= i < |es| ==> es[i].key.IntKey?
    ensures Merge(List(xs), es) == List(xs + ValuesOf(es))
  {
    MergeIntoList([], xs);
    assert [] + xs == xs;
    MergeIntoIntKeys(xs, es);
  }

  /** Exploding a string and imploding it again gives the string back. */
  lemma Arr2StrOfStr2Arr(s: string, sep: string)
    requires |sep| > 0
    ensures Arr2Str(Arr(Str2Arr(Str(s), Arr([]), sep)), Str(""), sep) == Str(s)
  {
    if s != "" {
      var pieces := Split(s, sep);
      var l := Str2Arr(Str(s), Arr([]), sep);
      assert l == List(StrValues(pieces));
      ListIsList(StrValues(pieces));
      StrsOfStrValues(pieces);
      JoinSplit(s, sep);
      assert Arr2StrBase(Arr(l), sep) == s;
    }
  }

  /** Imploding a list of strings gives the joined text. */
  lemma Arr2StrOfList(parts: seq<string>, sep: string)
    requires |parts| > 0
    ensures Arr2Str(Arr(List(StrValues(parts))), Str(""), sep) == Str(Join(sep, parts))
  {
    var vs := StrValues(parts);
    ListIsList(vs);
    StrsOfStrValues(parts);
    assert Arr2StrBase(Arr(List(vs)), sep) == Join(sep, parts);
  }

  /** Imploding a list of strings on a one-character separator and exploding
      it again gives the list back, when no piece holds the separator and the
      joined text is not empty. */
  lemma Str2ArrOfArr2Str(parts: seq<string>, c: char)
    requires |parts| > 0 && Join([c], parts) != ""
    requires forall i :: 0 <= i < |parts| ==> c !in parts[i]
    ensures Arr2Str(Arr(List(StrValues(parts))), Str(""), [c]) == Str(Join([c], parts))
    ensures Str2Arr(Str(Join([c], parts)), Arr([]), [c]) == List(StrValues(parts))
  {
    Arr2StrOfList(parts, [c]);
    SplitJoin(parts, c);
    Str2ArrOfText(Join([c], parts), [c]);
  }

  /** A non-empty text with nothing added explodes into the list of its
      pieces. */
  lemma Str2ArrOfText(s: string, sep: string)
    requires |sep| > 0 && s != ""
    ensures Str2Arr(Str(s), Arr([]), sep) == List(StrValues(Split(s, sep)))
  {
    assert s == "0" ==> AllDigits(s);
    assert !Empty(Str(s)) || IsNumeric(Str(s));
    assert AddAsArray(Arr([])) == [];
  }

  // ---- string helpers ----

  /** `n` occurs in `h` at position `i`, ignoring ASCII case unless `cs`. */
  predicate OccursAt(h: string, n: string, i: int, cs: bool) {
    0 <= i <= |h| - |n| &&
    (if cs then h[i..i + |n|] == n else Lower(h[i..i + |n|]) == Lower(n))
  }

  /** `str_has`: a string needle occurs at or after `offset`; an array needle
      matches when one of its items does; anything else never matches. */
  function StrHas(h: string, needle: Value, offset: nat, cs: bool): (r: bool)
    requires offset <= |h|
    ensures needle.Str? ==> (r <==> exists i :: offset <= i <= |h| && OccursAt(h, needle.s, i, cs))
    ensures needle.Str? && needle.s == "" ==> r
    ensures needle.Str? && cs && r ==> |needle.s| <= |h| - offset
    ensures !needle.Str? && !needle.Arr? ==> !r
    decreases needle
  {
    match needle
    case Str(n) =>
      assert n == "" ==> OccursAt(h, n, offset, cs);
      exists i :: offset <= i <= |h| && OccursAt(h, n, i, cs)
    case Arr(es) => exists i :: 0 <= i < |es| && StrHas(h, es[i].val, offset, cs)
    case _ => false
  }

  /** `str_starts_with`: an empty needle (including "0") always matches; a
      string needle matches the head of the haystack, ignoring ASCII case when
      `cs` is false; an array needle matches when one of its items does. */
  function StrStartsWith(h: string, needle: Value, cs: bool): (r: bool)
    ensures Empty(needle) ==> r
    ensures needle.Str? && !Empty(needle) && |h| < |needle.s| ==> !r
    ensures needle.Str? && !Empty(needle) && cs ==> (r <==> StartsWith(h, needle.s))
    ensures needle.Arr? && !Empty(needle) ==>
              (r <==> exists i :: 0 <= i < |needle.entries| && StrStartsWith(h, needle.entries[i].val, cs))
    ensures !Empty(needle) && !needle.Str? && !needle.Arr? ==> !r
    decreases needle
  {
    if Empty(needle) then true
    else match needle
      case Str(n) =>
        |h| >= |n| && (if cs then h[..|n|] == n else Lower(h[..|n|]) == Lower(n))
      case Arr(es) => exists i :: 0 <= i < |es| && StrStartsWith(h, es[i].val, cs)
      case _ => false
  }

  /** `str_ends_with`: as `StrStartsWith`, on the tail of the haystack. */
  function StrEndsWith(h: string, needle: Value, cs: bool): (r: bool)
    ensures Empty(needle) ==> r
    ensures needle.Str? && !Empty(needle) && |h| < |needle.s| ==> !r
    ensures needle.Str? && !Empty(needle) && cs ==> (r <==> EndsWith(h, needle.s))
    ensures needle.Arr? && !Empty(needle) ==>
              (r <==> exists i :: 0 <= i < |needle.entries| && StrEndsWith(h, needle.entries[i].val, cs))
    ensures !Empty(needle) && !needle.Str? && !needle.Arr? ==> !r
    decreases needle
  {
    if Empty(needle) then true
    else match needle
      case Str(n) =>
        |h| >= |n| && (if cs then h[|h| - |n|..] == n else Lower(h[|h| - |n|..]) == Lower(n))
      case Arr(es) => exists i :: 0 <= i < |es| && StrEndsWith(h, es[i].val, cs)
      case _ => false
  }

  /** A case-sensitive match is also a case-insensitive one. */
  lemma {:induction false} StartsWithIgnoringCase(h: string, needle: Value)
    ensures StrStartsWith(h, needle, true) ==> StrStartsWith(h, needle, false)
    decreases needle
  {
    if !Empty(needle) && needle.Arr? && StrStartsWith(h, needle, true) {
      var es := needle.entries;
      var i :| 0 <= i < |es| && StrStartsWith(h, es[i].val, true);
      StartsWithIgnoringCase(h, es[i].val);
    }
  }

  /** A list of string needles matches when one of them is empty or heads
      the haystack. */
  lemma StartsWithAnyOf(h: string, ns: seq<string>)
    requires |ns| > 0
    ensures StrStartsWith(h, Arr(List(StrValues(ns))), true) <==>
            exists i :: 0 <= i < |ns| && (Empty(Str(ns[i])) || StartsWith(h, ns[i]))
  {
    var es := List(StrValues(ns));
    assert forall i :: 0 <= i < |ns| ==> es[i].val == Str(ns[i]);
  }

  /** A list of string needles matches at the end when one of them is empty
      or ends the haystack. */
  lemma EndsWithAnyOf(h: string, ns: seq<string>)
    requires |ns| > 0
    ensures StrEndsWith(h, Arr(List(StrValues(ns))), true) <==>
            exists i :: 0 <= i < |ns| && (Empty(Str(ns[i])) || EndsWith(h, ns[i]))
  {
    var es := List(StrValues(ns));
    assert forall i :: 0 <= i < |ns| ==> es[i].val == Str(ns[i]);
  }

  function Reverse(s: string): (r: string)
    ensures |r| == |s| && forall i :: 0 <= i < |s| ==> r[i] == s[|s| - 1 - i]
  {
    seq(|s|, i requires 0 <= i < |s| => s[|s| - 1 - i])
  }

  /** A string ends with a needle exactly when its reverse starts with the
      reversed needle. */
  lemma EndsWithIsReversedStartsWith(h: string, n: string)
    requires !Empty(Str(n)) && !Empty(Str(Reverse(n)))
    ensures StrEndsWith(h, Str(n), true) <==> StrStartsWith(Reverse(h), Str(Reverse(n)), true)
  {
    if |h| >= |n| {
      var t := h[|h| - |n|..];
      if Reverse(h)[..|n|] == Reverse(n) {
        forall i | 0 <= i < |n| ensures t[i] == n[i] {
          assert Reverse(h)[|n| - 1 - i] == Reverse(n)[|n| - 1 - i];
        }
      }
      if t == n {
        forall i | 0 <= i < |n| ensures Reverse(h)[i] == Reverse(n)[i] {
          assert t[|n| - 1 - i] == n[|n| - 1 - i];
        }
      }
    }
  }

  /** `str_add_prefix`: the (possibly extended) string and whether the
      prefix was added. */
  function StrAddPrefix(s: string, prefix: string, cs: bool): (r: (string, bool))
    ensures r.1 <==> !StrStartsWith(s, Str(prefix), cs)
    ensures r.1 ==> r.0 == prefix + s
    ensures !r.1 ==> r.0 == s
    ensures StrStartsWith(r.0, Str(prefix), cs)
  {
    if !StrStartsWith(s, Str(prefix), cs) then
      assert (prefix + s)[..|prefix|] == prefix;
      (prefix + s, true)
    else (s, false)
  }

  /** `str_rem_prefix`: the string without the prefix's length of head, and
      whether the prefix was there. */
  function StrRemPrefix(s: string, prefix: string, cs: bool): (r: (string, bool))
    ensures r.1 <==> StrStartsWith(s, Str(prefix), cs)
    ensures r.1 && cs && !Empty(Str(prefix)) ==> prefix + r.0 == s
    ensures r.1 ==> |r.0| == if |prefix| <= |s| then |s| - |prefix| else 0
    ensures !r.1 ==> r.0 == s
  {
    if StrStartsWith(s, Str(prefix), cs) then
      (s[if |prefix| <= |s| then |prefix| else |s|..], true)
    else (s, false)
  }

  /** Removing a prefix that was just added gives the original string. */
  lemma RemAfterAdd(s: string, prefix: string, cs: bool)
    requires StrAddPrefix(s, prefix, cs).1
    ensures StrRemPrefix(StrAddPrefix(s, prefix, cs).0, prefix, cs) == (s, true)
  {
    assert (prefix + s)[|prefix|..] == s;
  }

  /** Adding a prefix twice is the same as adding it once. */
  lemma AddPrefixIdempotent(s: string, prefix: string, cs: bool)
    ensures var once := StrAddPrefix(s, prefix, cs).0;
            StrAddPrefix(once, prefix, cs) == (once, false)
  {
  }

  // ---- arrays ----

  /** `val2arr`: an empty value becomes `[]` (when asked), a non-array is
      wrapped, an array is kept. */
  function Val2Arr(v: Value, emptyToEmpty: bool): (r: Entries)
    ensures emptyToEmpty && Empty(v) ==> r == []
    ensures !(emptyToEmpty && Empty(v)) && !v.Arr? ==> r == [Entry(IntKey(0), v)]
    ensures v.Arr? ==> r == v.entries
  {
    if emptyToEmpty && Empty(v) then [] else if !v.Arr? then List([v]) else v.entries
  }

  /** Applying `val2arr` to its own result changes nothing. */
  lemma Val2ArrIdempotent(v: Value, e: bool)
    ensures Val2Arr(Arr(Val2Arr(v, e)), e) == Val2Arr(v, e)
  {
  }

  /** `val2arr_multi`: `val2arr` applied to each value, as a list. */
  function Val2ArrMulti(e: bool, vs: seq<Value>): (r: Entries)
    ensures IsList(r) && |r| == |vs|
    ensures forall i :: 0 <= i < |vs| ==> r[i].val == Arr(Val2Arr(vs[i], e))
  {
    List(seq(|vs|, i requires 0 <= i < |vs| => Arr(Val2Arr(vs[i], e))))
  }

  /** The integer keys of `es` from `key` onwards in the search direction. */
  function KeysAhead(es: Entries, key: int, down: bool): set<int> {
    set e | e in es && e.key.IntKey? && (if down then e.key.i <= key else e.key.i >= key) :: e.key.i
  }

  lemma SmallerSet(a: set<int>, b: set<int>, x: int)
    requires a <= b && x in b && x !in a
    ensures |a| < |b|
  {
    assert b == a + (b - a);
    assert x in b - a;
  }

  /** The first key from `key` onwards (stepping down or up) that is not set. */
  function FreeKey(es: Entries, key: int, down: bool): (k: int)
    ensures !Isset(es, IntKey(k))
    ensures if down then k <= key else k >= key
    ensures forall j :: (if down then k < j <= key else key <= j < k) ==> Isset(es, IntKey(j))
    decreases |KeysAhead(es, key, down)|
  {
    if Isset(es, IntKey(key)) then
      var next := if down then key - 1 else key + 1;
      var i :| 0 <= i < |es| && es[i].key == IntKey(key);
      var ahead, later := KeysAhead(es, key, down), KeysAhead(es, next, down);
      assert key in ahead by { assert es[i] in es; }
      assert later <= ahead && key !in later;
      SmallerSet(later, ahead, key);
      FreeKey(es, next, down)
    else key
  }

  /** The key `add2list` uses. */
  function Add2ListKey(list: Value, atStart: bool, keyTry: Option<int>): int {
    FreeKey(Val2Arr(list, true), if keyTry.Some? then keyTry.value else 0, atStart)
  }

  /** `add2list`: puts `val` under the first key not set, searching down from
      `$key_try` (at the start) or up (at the end). An empty list stays empty
      when `add_if_empty` is false. */
  function Add2List(list: Value, val: Value, atStart: bool, addIfEmpty: bool, keyTry: Option<int>): (r: Entries)
    ensures Empty(list) && !addIfEmpty ==> r == []
    ensures !(Empty(list) && !addIfEmpty) ==>
              var k := Add2ListKey(list, atStart, keyTry);
              !Isset(Val2Arr(list, true), IntKey(k)) &&
              Lookup(r, IntKey(k)) == Some(val) &&
              (atStart ==> r[0] == Entry(IntKey(k), val)) &&
              forall k' :: k' != IntKey(k) ==> Lookup(r, k') == Lookup(Val2Arr(list, true), k')
  {
    if Empty(list) && !addIfEmpty then []
    else
      var l := Val2Arr(list, true);
      var k := Add2ListKey(list, atStart, keyTry);
      if atStart then
        var rest := Remove(l, IntKey(k));
        assert ([Entry(IntKey(k), val)] + rest)[1..] == rest;
        [Entry(IntKey(k), val)] + rest
      else Set(l, IntKey(k), val)
  }

  /** `k` is among the keys `array_fill_keys` makes of the listed values. */
  predicate ListedKey(keys: Entries, k: Key) {
    exists i :: 0 <= i < |keys| && FillKey(keys[i].val) == Some(k)
  }

  /** `array_remove_by_keys`: drops every entry whose key is among `$keys`,
      renumbering the rest when asked. */
  function ArrayRemoveByKeys(input: Entries, keys: Value, recalc: bool): (r: Entries)
    ensures !recalc ==> forall e :: e in r <==> e in input && !ListedKey(Val2Arr(keys, true), e.key)
    ensures recalc ==> IsList(r)
    ensures recalc ==> forall v :: v in ValuesOf(r) <==> exists e :: e in input && !ListedKey(Val2Arr(keys, true), e.key) && e.val == v
  {
    var ks := Val2Arr(keys, true);
    var res := Filter(input, (e: Entry) => !ListedKey(ks, e.key));
    if recalc then
      assert forall v :: v in ValuesOf(res) <==> exists e :: e in res && e.val == v by {
        forall v ensures v in ValuesOf(res) <==> exists e :: e in res && e.val == v {
          if v in ValuesOf(res) {
            var i :| 0 <= i < |res| && ValuesOf(res)[i] == v;
            assert res[i] in res;
          }
          if exists e :: e in res && e.val == v {
            var e :| e in res && e.val == v;
            var i :| 0 <= i < |res| && res[i] == e;
            assert ValuesOf(res)[i] == v;
          }
        }
      }
      Values(res)
    else res
  }

  /** Renumbering keeps the surviving values, in their order. */
  lemma ArrayRemoveRenumbers(input: Entries, keys: Value)
    ensures ArrayRemoveByKeys(input, keys, true) == Values(ArrayRemoveByKeys(input, keys, false))
  {
  }

  /** Removal works entry by entry, so the survivors keep their order. */
  lemma ArrayRemoveByKeysConcat(a: Entries, b: Entries, keys: Value)
    ensures ArrayRemoveByKeys(a + b, keys, false) == ArrayRemoveByKeys(a, keys, false) + ArrayRemoveByKeys(b, keys, false)
  {
    var ks := Val2Arr(keys, true);
    FilterConcat(a, b, (e: Entry) => !ListedKey(ks, e.key));
  }

  /** Nothing listed, nothing removed. */
  lemma ArrayRemoveNoKeys(input: Entries)
    ensures ArrayRemoveByKeys(input, Arr([]), false) == input
  {
    var ks := Val2Arr(Arr([]), true);
    assert ks == [];
    FilterKeepAll(input, (e: Entry) => !ListedKey(ks, e.key));
  }

  /** Keys are compared by their string form: a listed false removes the
      key "", not the key 0, while a listed "0" removes the key 0. */
  lemma ArrayRemoveByStringForm()
    ensures ArrayRemoveByKeys([Entry(IntKey(0), Str("a"))], Arr([Entry(IntKey(0), Bool(false))]), false) ==
            [Entry(IntKey(0), Str("a"))]
    ensures ArrayRemoveByKeys([Entry(StrKey(""), Str("a"))], Arr([Entry(IntKey(0), Bool(false))]), false) == []
    ensures ArrayRemoveByKeys([Entry(IntKey(0), Str("a"))], Arr([Entry(IntKey(0), Str("0"))]), false) == []
  {
    var ks := [Entry(IntKey(0), Bool(false))];
    assert Val2Arr(Arr(ks), true) == ks;
    assert !ListedKey(ks, IntKey(0));
    assert FillKey(ks[0].val) == Some(StrKey(""));
    assert ListedKey(ks, StrKey(""));
    var zero := [Entry(IntKey(0), Str("0"))];
    assert Val2Arr(Arr(zero), true) == zero;
    assert FillKey(zero[0].val) == Some(IntKey(0)) by {
      IntToStrRoundTrip(0);
      assert IntToStr(0) == "0";
    }
    assert ListedKey(zero, IntKey(0));
  }

  /** `in_array($val, $list)`: some item of the list is loosely equal. */
  predicate InArray(val: Value, es: Entries) {
    exists i :: 0 <= i < |es| && LooseEq(val, es[i].val)
  }

  /** `isset_in_list`: the value when the list holds it, otherwise the default,
      or the first element (or null) when the default is null. */
  function IssetInList(list: Value, val: Value, def: Value, returnNull: bool): (r: Value)
    ensures !list.Arr? || list.entries == [] ==> r == def
    ensures list.Arr? && list.entries != [] && InArray(val, list.entries) ==> r == val
    ensures list.Arr? && list.entries != [] && !InArray(val, list.entries) ==>
              r == (if def != Null then def else if returnNull then Null else list.entries[0].val)
    ensures r == val || r == def || r == Null || (list.Arr? && r in ValuesOf(list.entries))
  {
    if !list.Arr? || list.entries == [] then def
    else if InArray(val, list.entries) then val
    else if def == Null then (if returnNull then Null else list.entries[0].val)
    else def
  }

  /** An item of the list itself is always found. */
  lemma IssetInListFindsItem(es: Entries, i: nat, def: Value, returnNull: bool)
    requires i < |es|
    ensures IssetInList(Arr(es), es[i].val, def, returnNull) == es[i].val
  {
    LooseEqReflexive(es[i].val);
  }

  /** The comparison is loose: "1" is found in a list holding 1, while
      "abc" is not found in a list holding 0. */
  lemma IssetInListIsLoose()
    ensures IssetInList(Arr(List([Int(1)])), Str("1"), Str("x"), false) == Str("1")
    ensures IssetInList(Arr(List([Int(0)])), Str("abc"), Str("x"), false) == Str("x")
  {
    assert IsNumericStr("1") by { assert AllDigits("1"); }
    assert StrToInt("1") == 1 by { LeadingDigitsOfDigits("1"); }
    assert LooseEq(Str("1"), List([Int(1)])[0].val);
    assert IntToStr(0) == "0";
  }

  // ---- keys ----

  /** One argument of `make_key`: strings and numbers as text, anything else
      as "1" or "0" by truthiness. */
  function KeyPart(v: Value): (r: string)
    ensures v.Str? ==> r == v.s
    ensures !v.Str? && !IsNumeric(v) ==> r == (if Truthy(v) then "1" else "0")
  {
    if v.Str? || IsNumeric(v) then ToStr(v) else if Truthy(v) then "1" else "0"
  }

  /** `make_key(...$args)`: the parts joined with "_", or "0" without args. */
  function MakeKey(args: seq<Value>): (r: string)
    ensures |args| == 0 ==> r == "0"
    ensures |args| == 1 ==> r == KeyPart(args[0])
    ensures |args| > 0 && (forall i :: 0 <= i < |args| ==> '_' !in KeyPart(args[i])) ==>
              Split(r, "_") == seq(|args|, i requires 0 <= i < |args| => KeyPart(args[i]))
  {
    var parts := seq(|args|, i requires 0 <= i < |args| => KeyPart(args[i]));
    if |args| == 0 then "0"
    else if forall i :: 0 <= i < |parts| ==> '_' !in parts[i] then
      SplitJoin(parts, '_');
      Join("_", parts)
    else Join("_", parts)
  }

  /** `val2key`: an array is spread into `make_key`; any other value is keyed
      on its own. */
  function Val2Key(v: Value): (r: string)
    ensures v.Arr? ==> r == MakeKey(ValuesOf(v.entries))
  {
    if v.Arr? then MakeKey(ValuesOf(v.entries))
    else if v.Str? || IsNumeric(v) then ToStr(v)
    else if Truthy(v) then "1" else "0"
  }

  /** A single non-array value gets the same key from `val2key` as from
      `make_key`. */
  lemma Val2KeyIsMakeKeyOfOne(v: Value)
    requires !v.Arr?
    ensures Val2Key(v) == MakeKey([v])
  {
    assert seq(1, i requires 0 <= i < 1 => KeyPart([v][i])) == [KeyPart(v)];
  }

  // ---- time_diff_to_str_max ----

  datatype TimeUnit = TimeUnit(name: string, secs: nat)

  const YEARSECS: nat := 31536000
  const WEEKSECS: nat := 604800
  const DAYSECS: nat := 86400
  const HOURSECS: nat := 3600
  const MINSECS: nat := 60

  /** The units, largest first. */
  const Units: seq<TimeUnit> := [TimeUnit("year", YEARSECS), TimeUnit("week", WEEKSECS),
    TimeUnit("day", DAYSECS), TimeUnit("hour", HOURSECS), TimeUnit("minute", MINSECS),
    TimeUnit("second", 1)]

  /** Units that can be counted: named, positive, strictly decreasing. */
  predicate ValidUnits(units: seq<TimeUnit>) {
    (forall i :: 0 <= i < |units| ==> units[i].secs > 0 && units[i].name != "") &&
    (forall i, j :: 0 <= i < j < |units| ==> units[i].secs > units[j].secs)
  }

  lemma UnitsValid()
    ensures ValidUnits(Units)
  {
  }

  /** `n` of a unit. */
  datatype TimePart = TimePart(n: nat, unit: TimeUnit)

  /** `n * s`, by repeated addition. */
  function Times(n: nat, s: nat): nat {
    if n == 0 then 0 else s + Times(n - 1, s)
  }

  /** `floor(d / s)`, by repeated subtraction. */
  function Quot(d: nat, s: nat): nat
    requires s > 0
    decreases d
  {
    if d < s then 0 else 1 + Quot(d - s, s)
  }

  /** The whole units in `d` leave less than one unit over, and there is at
      least one when `d` reaches a unit. */
  lemma {:induction false} QuotFacts(d: nat, s: nat)
    requires s > 0
    ensures Times(Quot(d, s), s) <= d && d - Times(Quot(d, s), s) < s
    ensures d >= s ==> Quot(d, s) > 0
    decreases d
  {
    if d >= s {
      QuotFacts(d - s, s);
    }
  }

  /** Repeated addition is multiplication. */
  lemma {:induction false} TimesIsMul(n: nat, s: nat)
    ensures Times(n, s) == n * s
    decreases n
  {
    if n > 0 {
      TimesIsMul(n - 1, s);
      assert (n - 1) * s + s == n * s;
    }
  }

  function PartsValue(ps: seq<TimePart>): nat {
    if |ps| == 0 then 0 else Times(ps[0].n, ps[0].unit.secs) + PartsValue(ps[1..])
  }

  /** The components the loop emits for `diff` over `units`, with `count`
      components still allowed. */
  function TimeParts(diff: nat, units: seq<TimeUnit>, count: int): seq<TimePart>
    requires ValidUnits(units)
  {
    if |units| == 0 then []
    else
      var u := units[0];
      assert ValidUnits(units[1..]);
      if diff >= u.secs then
        var n := Quot(diff, u.secs);
        QuotFacts(diff, u.secs);
        var rest := if count - 1 < 1 then [] else TimeParts(diff - Times(n, u.secs), units[1..], count - 1);
        [TimePart(n, u)] + rest
      else TimeParts(diff, units[1..], count)
  }

  /** At most `count` components (at least one is always allowed), worth
      no more than the difference. */
  lemma {:induction false} TimePartsBounded(diff: nat, units: seq<TimeUnit>, count: int)
    requires ValidUnits(units)
    ensures |TimeParts(diff, units, count)| <= (if count < 1 then 1 else count)
    ensures PartsValue(TimeParts(diff, units, count)) <= diff
    decreases |units|
  {
    if |units| > 0 {
      var u := units[0];
      assert ValidUnits(units[1..]);
      if diff >= u.secs {
        var n := Quot(diff, u.secs);
        QuotFacts(diff, u.secs);
        if count - 1 >= 1 {
          var rest := TimeParts(diff - Times(n, u.secs), units[1..], count - 1);
          TimePartsBounded(diff - Times(n, u.secs), units[1..], count - 1);
          assert ([TimePart(n, u)] + rest)[1..] == rest;
        }
      } else {
        TimePartsBounded(diff, units[1..], count);
      }
    }
  }

  /** Every component counts at least one of the given units. */
  lemma {:induction false} TimePartsUnits(diff: nat, units: seq<TimeUnit>, count: int)
    requires ValidUnits(units)
    ensures forall p :: p in TimeParts(diff, units, count) ==> p.unit in units && p.n > 0
    decreases |units|
  {
    if |units| > 0 {
      var u := units[0];
      assert ValidUnits(units[1..]);
      var r := TimeParts(diff, units, count);
      var tail := units[1..];
      if diff >= u.secs {
        var n := Quot(diff, u.secs);
        QuotFacts(diff, u.secs);
        if count - 1 >= 1 {
          var rest := TimeParts(diff - Times(n, u.secs), tail, count - 1);
          TimePartsUnits(diff - Times(n, u.secs), tail, count - 1);
          assert r == [TimePart(n, u)] + rest;
          forall p | p in r ensures p.unit in units && p.n > 0 {
            if p != TimePart(n, u) {
              assert p in rest && p.unit in tail;
            }
          }
        } else {
          assert r == [TimePart(n, u)];
        }
      } else {
        TimePartsUnits(diff, tail, count);
        assert r == TimeParts(diff, tail, count);
        assert forall p :: p in r ==> p.unit in tail;
      }
    }
  }

  /** Components in strictly decreasing unit order. */
  predicate Descending(ps: seq<TimePart>) {
    forall i, j :: 0 <= i < j < |ps| ==> ps[i].unit.secs > ps[j].unit.secs
  }

  lemma DescendingCons(p: TimePart, rest: seq<TimePart>)
    requires Descending(rest) && forall q :: q in rest ==> q.unit.secs < p.unit.secs
    ensures Descending([p] + rest)
  {
    var r := [p] + rest;
    forall i, j | 0 <= i < j < |r| ensures r[i].unit.secs > r[j].unit.secs {
      assert r[j] == rest[j - 1];
      if i > 0 {
        assert r[i] == rest[i - 1];
      }
    }
  }

  /** Components in units after the first are smaller than the first. */
  lemma PartsBelowHead(units: seq<TimeUnit>, ps: seq<TimePart>)
    requires ValidUnits(units) && |units| > 0
    requires forall q :: q in ps ==> q.unit in units[1..]
    ensures forall q :: q in ps ==> q.unit.secs < units[0].secs
  {
    forall q | q in ps ensures q.unit.secs < units[0].secs {
      var k :| 0 <= k < |units[1..]| && units[1..][k] == q.unit;
      assert units[k + 1] == q.unit;
    }
  }

  /** The units of the components strictly decrease. */
  lemma {:induction false} TimePartsOrdered(diff: nat, units: seq<TimeUnit>, count: int)
    requires ValidUnits(units)
    ensures Descending(TimeParts(diff, units, count))
    decreases |units|
  {
    if |units| > 0 {
      var u := units[0];
      var tail := units[1..];
      assert ValidUnits(tail);
      if diff >= u.secs {
        var n := Quot(diff, u.secs);
        QuotFacts(diff, u.secs);
        if count - 1 >= 1 {
          var d := diff - Times(n, u.secs);
          TimePartsOrdered(d, tail, count - 1);
          TimePartsUnits(d, tail, count - 1);
          var rest := TimeParts(d, tail, count - 1);
          PartsBelowHead(units, rest);
          DescendingCons(TimePart(n, u), rest);
          assert TimeParts(diff, units, count) == [TimePart(n, u)] + rest;
        }
      } else {
        TimePartsOrdered(diff, tail, count);
        assert TimeParts(diff, units, count) == TimeParts(diff, tail, count);
      }
    }
  }

  /** A difference at least as large as one of the units gives at least one
      component. */
  lemma {:induction false} TimePartsNonEmpty(diff: nat, units: seq<TimeUnit>, count: int, k: nat)
    requires ValidUnits(units) && k < |units| && units[k].secs <= diff
    ensures |TimeParts(diff, units, count)| > 0
    decreases |units|
  {
    if units[0].secs > diff {
      assert ValidUnits(units[1..]) && units[1..][k - 1] == units[k];
      TimePartsNonEmpty(diff, units[1..], count, k - 1);
    }
  }

  /** With a component allowed for every unit and a last unit of one second,
      the components add up to the whole difference. */
  lemma {:induction false} TimePartsExact(diff: nat, units: seq<TimeUnit>, count: int)
    requires ValidUnits(units) && |units| > 0 && units[|units| - 1].secs == 1 && count >= |units|
    ensures PartsValue(TimeParts(diff, units, count)) == diff
    decreases |units|
  {
    var u := units[0];
    assert ValidUnits(units[1..]);
    if |units| == 1 {
      assert u.secs == 1;
      QuotFacts(diff, 1);
    } else {
      assert units[1..][|units| - 2] == units[|units| - 1];
      if diff >= u.secs {
        var n := Quot(diff, u.secs);
        QuotFacts(diff, u.secs);
        TimePartsExact(diff - Times(n, u.secs), units[1..], count - 1);
        var rest := TimeParts(diff - Times(n, u.secs), units[1..], count - 1);
        assert ([TimePart(n, u)] + rest)[1..] == rest;
      } else {
        TimePartsExact(diff, units[1..], count);
      }
    }
  }

  /** The leading component is the largest unit that fits in the
      difference. */
  lemma {:induction false} TimePartsLeading(diff: nat, units: seq<TimeUnit>, count: int)
    requires ValidUnits(units)
    ensures var r := TimeParts(diff, units, count);
            |r| > 0 ==> exists k :: 0 <= k < |units| && units[k] == r[0].unit && units[k].secs <= diff &&
                                   forall j :: 0 <= j < k ==> units[j].secs > diff
    decreases |units|
  {
    if |units| > 0 {
      assert ValidUnits(units[1..]);
      var r := TimeParts(diff, units, count);
      if units[0].secs > diff {
        TimePartsLeading(diff, units[1..], count);
        if |r| > 0 {
          var k :| 0 <= k < |units| - 1 && units[1..][k] == r[0].unit && units[1..][k].secs <= diff &&
                   forall j :: 0 <= j < k ==> units[1..][j].secs > diff;
          assert units[k + 1] == r[0].unit;
          assert forall j :: 1 <= j < k + 1 ==> units[j] == units[1..][j - 1];
        }
      } else {
        assert r[0].unit == units[0];
      }
    }
  }

  /** One component as text: the count and the unit's name (plural unless
      one), or its first letter. */
  function FormatPart(p: TimePart, fullname: bool): string {
    var name := p.unit.name;
    NatToStr(p.n) +
      (if fullname then " " + name + (if p.n == 1 then "" else "s") else if |name| > 0 then [name[0]] else "")
  }

  function Abs(x: int): nat {
    if x < 0 then -x else x
  }

  /** `time_diff_to_str_max($t1, $t2, $count, $fullname, $separator, $ifnull)`
      with `$t2` supplied by the caller (the source reads the clock when it
      is null). */
  function TimeDiffToStrMax(t1: int, t2: int, count: int, fullname: bool, sep: string, ifnull: string): (r: string)
    ensures t1 == t2 ==> r == ifnull
    ensures t1 != t2 ==>
              var ps := TimeParts(Abs(t2 - t1), Units, count);
              0 < |ps| <= (if count < 1 then 1 else count) &&
              r == Join(sep, seq(|ps|, i requires 0 <= i < |ps| => FormatPart(ps[i], fullname)))
  {
    UnitsValid();
    var diff := Abs(t2 - t1);
    if diff == 0 then ifnull
    else
      var ps := TimeParts(diff, Units, count);
      TimePartsNonEmpty(diff, Units, count, 5);
      TimePartsBounded(diff, Units, count);
      Join(sep, seq(|ps|, i requires 0 <= i < |ps| => FormatPart(ps[i], fullname)))
  }

  /** The order of the two timestamps does not matter. */
  lemma TimeDiffSymmetric(t1: int, t2: int, count: int, fullname: bool, sep: string, ifnull: string)
    ensures TimeDiffToStrMax(t1, t2, count, fullname, sep, ifnull) ==
            TimeDiffToStrMax(t2, t1, count, fullname, sep, ifnull)
  {
    assert Abs(t2 - t1) == Abs(t1 - t2);
  }
}
