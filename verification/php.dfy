/** PHP values, truthiness, casts and the byte-string operations the plugin's
    helpers rely on. Floating-point numbers are not modelled; every string is a
    sequence of single-byte characters. */
module Php {

  datatype Option<+T> = None | Some(value: T)

  /** An array key: PHP arrays are keyed by integers or by strings. */
  datatype Key = IntKey(i: int) | StrKey(s: string)

  datatype Value =
    | Null
    | Bool(b: bool)
    | Int(i: int)
    | Str(s: string)
    | Arr(entries: seq<Entry>)
    | Obj(cls: string, props: seq<Entry>)

  /** One key/value pair of an ordered PHP array (or of an object's
      properties, which PHP also keeps in insertion order). */
  datatype Entry = Entry(key: Key, val: Value)

  /** The value stored under the first entry with key `k`. */
  function Lookup(es: seq<Entry>, k: Key): (r: Option<Value>)
    ensures r.Some? <==> exists i :: 0 <= i < |es| && es[i].key == k
    ensures r.Some? ==> exists i :: 0 <= i < |es| && es[i] == Entry(k, r.value)
  {
    if |es| == 0 then None
    else if es[0].key == k then Some(es[0].val)
    else
      var r := Lookup(es[1..], k);
      assert forall i :: 0 < i < |es| ==> es[i] == es[1..][i - 1];
      r
  }

  /** `$obj->name ?? null` on an object; null for anything else. */
  function Prop(v: Value, name: string): Value {
    if v.Obj? then
      match Lookup(v.props, StrKey(name))
      case Some(x) => x
      case None => Null
    else Null
  }

  /** `isset($obj->name)`. */
  predicate HasProp(v: Value, name: string) {
    Prop(v, name) != Null
  }

  /** PHP `empty()`: null, false, 0, "", "0" and the empty array. */
  predicate Empty(v: Value) {
    match v
    case Null => true
    case Bool(b) => !b
    case Int(i) => i == 0
    case Str(s) => s == "" || s == "0"
    case Arr(es) => |es| == 0
    case Obj(_, _) => false
  }

  /** A value PHP converts to `true`. */
  predicate Truthy(v: Value) {
    !Empty(v)
  }

  predicate IsScalar(v: Value) {
    v.Bool? || v.Int? || v.Str?
  }

  predicate IsDigit(c: char) {
    '0' <= c <= '9'
  }

  predicate AllDigits(s: string) {
    forall i :: 0 <= i < |s| ==> IsDigit(s[i])
  }

  /** `is_numeric` on a string, for integer notation: an optional sign
      followed by at least one decimal digit. */
  predicate IsNumericStr(s: string) {
    if |s| > 0 && (s[0] == '-' || s[0] == '+') then |s| > 1 && AllDigits(s[1..])
    else |s| > 0 && AllDigits(s)
  }

  /** PHP `is_numeric`. */
  predicate IsNumeric(v: Value) {
    v.Int? || (v.Str? && IsNumericStr(v.s))
  }

  function DigitChar(d: nat): (c: char)
    requires d < 10
    ensures IsDigit(c)
  {
    (('0' as int) + d) as char
  }

  function DigitOf(c: char): (d: nat)
    requires IsDigit(c)
    ensures d < 10
  {
    (c as int) - ('0' as int)
  }

  /** Decimal notation of a natural number, without leading zeros. */
  function NatToStr(n: nat): (r: string)
    ensures |r| > 0 && AllDigits(r)
    ensures n < 10 <==> |r| == 1
    decreases n
  {
    if n < 10 then [DigitChar(n)] else NatToStr(n / 10) + [DigitChar(n % 10)]
  }

  /** PHP `strval` of an integer. */
  function IntToStr(i: int): string {
    if i < 0 then "-" + NatToStr(-i) else NatToStr(i)
  }

  /** The number a string of digits denotes. */
  function DigitsValue(s: string): nat
    requires AllDigits(s)
  {
    if |s| == 0 then 0 else DigitsValue(s[..|s| - 1]) * 10 + DigitOf(s[|s| - 1])
  }

  /** The longest prefix of `s` made of digits. */
  function LeadingDigits(s: string): (r: string)
    ensures AllDigits(r) && r <= s
    ensures |r| < |s| ==> !IsDigit(s[|r|])
  {
    if |s| > 0 && IsDigit(s[0]) then [s[0]] + LeadingDigits(s[1..]) else ""
  }

  /** PHP `(int)` applied to a string: an optional sign, then the longest run
      of digits; 0 when there is none. */
  function StrToInt(s: string): int {
    if |s| > 0 && s[0] == '-' then 0 - (DigitsValue(LeadingDigits(s[1..])) as int)
    else if |s| > 0 && s[0] == '+' then DigitsValue(LeadingDigits(s[1..]))
    else DigitsValue(LeadingDigits(s))
  }

  /** PHP `(int)`. */
  function IntCast(v: Value): int {
    match v
    case Null => 0
    case Bool(b) => if b then 1 else 0
    case Int(i) => i
    case Str(s) => StrToInt(s)
    case Arr(es) => if |es| == 0 then 0 else 1
    case Obj(_, _) => 1
  }

  /** PHP string conversion (`strval`, `implode`, concatenation). Objects are
      taken to have no `__toString` and give "". */
  function ToStr(v: Value): string {
    match v
    case Null => ""
    case Bool(b) => if b then "1" else ""
    case Int(i) => IntToStr(i)
    case Str(s) => s
    case Arr(_) => "Array"
    case Obj(_, _) => ""
  }

  /** PHP 8 loose comparison `a == b`. Booleans and null compare by
      truthiness, except that null equals a string only when it is empty;
      two numeric strings, or a number and a numeric string, compare as
      numbers, anything else with a string compares as text; arrays are
      equal when they hold the same keys with loosely equal values, objects
      when they are of one class with loosely equal properties. An object
      never equals a number or a string here (it has no `__toString`). */
  predicate LooseEq(a: Value, b: Value)
    decreases a
  {
    if a.Bool? then a.b == Truthy(b)
    else if b.Bool? then Truthy(a) == b.b
    else if a.Null? then (if b.Str? then b.s == "" else !Truthy(b))
    else if b.Null? then (if a.Str? then a.s == "" else !Truthy(a))
    else if a.Int? && b.Int? then a.i == b.i
    else if a.Int? && b.Str? then
      if IsNumericStr(b.s) then StrToInt(b.s) == a.i else IntToStr(a.i) == b.s
    else if a.Str? && b.Int? then
      if IsNumericStr(a.s) then StrToInt(a.s) == b.i else a.s == IntToStr(b.i)
    else if a.Str? && b.Str? then
      if IsNumericStr(a.s) && IsNumericStr(b.s) then StrToInt(a.s) == StrToInt(b.s) else a.s == b.s
    else if a.Arr? && b.Arr? then
      |a.entries| == |b.entries| &&
      forall i :: 0 <= i < |a.entries| ==> LooseIn(a.entries[i], b.entries)
    else if a.Obj? && b.Obj? then
      a.cls == b.cls && |a.props| == |b.props| &&
      forall i :: 0 <= i < |a.props| ==> LooseIn(a.props[i], b.props)
    else false
  }

  /** The key of `e` is in `ys` with a value loosely equal to `e`'s. */
  predicate LooseIn(e: Entry, ys: seq<Entry>)
    decreases e, 0
  {
    exists j :: 0 <= j < |ys| && ys[j].key == e.key && LooseEq(e.val, ys[j].val)
  }

  /** Every value is loosely equal to itself. */
  lemma {:induction false} LooseEqReflexive(a: Value)
    ensures LooseEq(a, a)
    decreases a
  {
    match a
    case Arr(xs) =>
      forall i | 0 <= i < |xs|
        ensures LooseIn(xs[i], xs)
      {
        LooseEqReflexive(xs[i].val);
        assert xs[i].key == xs[i].key && LooseEq(xs[i].val, xs[i].val);
      }
    case Obj(_, ps) =>
      forall i | 0 <= i < |ps|
        ensures LooseIn(ps[i], ps)
      {
        LooseEqReflexive(ps[i].val);
        assert ps[i].key == ps[i].key && LooseEq(ps[i].val, ps[i].val);
      }
    case _ =>
  }

  lemma {:induction false} DigitsOfNatToStr(n: nat)
    ensures DigitsValue(NatToStr(n)) == n
    decreases n
  {
    if n >= 10 {
      var r := NatToStr(n / 10) + [DigitChar(n % 10)];
      assert r[..|r| - 1] == NatToStr(n / 10);
      DigitsOfNatToStr(n / 10);
    }
  }

  lemma LeadingDigitsOfDigits(s: string)
    requires AllDigits(s)
    ensures LeadingDigits(s) == s
  {
  }

  lemma NegRoundTrip(n: nat)
    requires n > 0
    ensures StrToInt("-" + NatToStr(n)) == 0 - (n as int)
  {
    var t := NatToStr(n);
    var u := "-" + t;
    assert u[0] == '-' && u[1..] == t;
    LeadingDigitsOfDigits(t);
    DigitsOfNatToStr(n);
  }

  lemma NatRoundTrip(n: nat)
    ensures StrToInt(NatToStr(n)) == n
  {
    var t := NatToStr(n);
    assert t[0] != '-' && t[0] != '+' by { assert IsDigit(t[0]); }
    LeadingDigitsOfDigits(t);
    DigitsOfNatToStr(n);
  }

  /** Casting the decimal notation of an integer back gives the integer. */
  lemma IntToStrRoundTrip(i: int)
    ensures StrToInt(IntToStr(i)) == i
  {
    if i < 0 {
      NegRoundTrip(-i);
    } else {
      NatRoundTrip(i);
    }
  }

  /** A string PHP turns into an integer key: the canonical decimal notation
      of an integer ("12", "-3", not "012", "+1" or "-0"). */
  predicate IsIntKeyStr(s: string) {
    IntToStr(StrToInt(s)) == s
  }

  /** A string that starts with neither a sign nor a digit is never an
      integer key. */
  lemma NonNumericHeadIsStrKey(s: string)
    requires |s| > 0 && s[0] != '-' && !IsDigit(s[0])
    ensures !IsIntKeyStr(s)
  {
    var x := StrToInt(s);
    if x < 0 {
      assert IntToStr(x)[0] == '-';
    } else {
      assert IsDigit(IntToStr(x)[0]);
    }
  }

  /** The key PHP uses when `v` indexes an array; None where PHP raises
      "Illegal offset type" (arrays and objects). */
  function ToKey(v: Value): (r: Option<Key>)
    ensures r.None? <==> (v.Arr? || v.Obj?)
    ensures v.Int? ==> r == Some(IntKey(v.i))
  {
    match v
    case Null => Some(StrKey(""))
    case Bool(b) => Some(IntKey(if b then 1 else 0))
    case Int(i) => Some(IntKey(i))
    case Str(s) => if IsIntKeyStr(s) then Some(IntKey(StrToInt(s))) else Some(StrKey(s))
    case Arr(_) => None
    case Obj(_, _) => None
  }

  /** The key `array_fill_keys` makes of a value: an integer is kept, any
      other value is first turned into its string form (false and null into
      "", true into "1", an array into "Array"), which then becomes a key as
      every string does. An object without a string form has no key. */
  function FillKey(v: Value): (r: Option<Key>)
    ensures v.Obj? <==> r.None?
    ensures v.Int? ==> r == Some(IntKey(v.i))
    ensures v == Null || v == Bool(false) ==> r == Some(StrKey(""))
    ensures v == Bool(true) ==> r == Some(IntKey(1))
    ensures v.Arr? ==> r == Some(StrKey("Array"))
  {
    match v
    case Int(i) => Some(IntKey(i))
    case Obj(_, _) => None
    case _ =>
      FillKeyTexts();
      ToKey(Str(ToStr(v)))
  }

  /** The string forms of null, the booleans and arrays, as keys. */
  lemma FillKeyTexts()
    ensures !IsIntKeyStr("") && !IsIntKeyStr("Array")
    ensures IsIntKeyStr("1") && StrToInt("1") == 1
  {
    NonNumericHeadIsStrKey("Array");
    IntToStrRoundTrip(1);
    assert IntToStr(1) == "1";
  }

  /** Values with the same string form fill the same key: an integer and
      its decimal text, true and "1", false and "". */
  lemma {:induction false} FillKeyByText(v: Value)
    requires !v.Obj?
    ensures FillKey(v) == ToKey(Str(ToStr(v)))
  {
    if v.Int? {
      IntToStrRoundTrip(v.i);
    }
  }

  /** A key read back as a value (`foreach ($a as $key => ...)`). */
  function KeyValue(k: Key): Value {
    match k
    case IntKey(i) => Int(i)
    case StrKey(s) => Str(s)
  }

  /** The string form of a key. */
  function KeyStr(k: Key): string {
    ToStr(KeyValue(k))
  }

  /** Integer keys are turned into integer keys again. */
  lemma IntKeyRoundTrip(i: int)
    ensures ToKey(Str(IntToStr(i))) == Some(IntKey(i))
  {
    IntToStrRoundTrip(i);
  }

  // ---------------------------------------------------------------------
  // Byte strings

  predicate StartsWith(s: string, p: string) {
    |p| <= |s| && s[..|p|] == p
  }

  predicate EndsWith(s: string, p: string) {
    |p| <= |s| && s[|s| - |p|..] == p
  }

  /** ASCII lower-casing, as PHP's byte-wise case-insensitive comparisons do. */
  function LowerChar(c: char): char {
    if 'A' <= c <= 'Z' then ((c as int) + 32) as char else c
  }

  function Lower(s: string): (r: string)
    ensures |r| == |s|
    ensures forall i :: 0 <= i < |s| ==> r[i] == LowerChar(s[i])
  {
    seq(|s|, i requires 0 <= i < |s| => LowerChar(s[i]))
  }

  /** `strpos($s, $c) !== false` for a one-character needle. */
  predicate HasChar(s: string, c: char) {
    c in s
  }

  /** Position of the first `c` in `s`. */
  function IndexOf(s: string, c: char): (r: Option<nat>)
    ensures r.None? <==> c !in s
    ensures r.Some? ==> r.value < |s| && s[r.value] == c && c !in s[..r.value]
  {
    if |s| == 0 then None
    else if s[0] == c then Some(0)
    else match IndexOf(s[1..], c)
      case None => None
      case Some(j) => assert s[1..][..j] == s[1..j + 1]; Some(j + 1)
  }

  /** PHP `implode`/`join` of strings. */
  function Join(sep: string, parts: seq<string>): string {
    if |parts| == 0 then ""
    else if |parts| == 1 then parts[0]
    else parts[0] + sep + Join(sep, parts[1..])
  }

  /** PHP `explode` with a non-empty separator: the pieces between
      non-overlapping occurrences of `sep`, scanning from the left. */
  function Split(s: string, sep: string): (r: seq<string>)
    requires |sep| > 0
    ensures |r| > 0
    decreases |s|
  {
    if |s| < |sep| then [s]
    else if s[..|sep|] == sep then [""] + Split(s[|sep|..], sep)
    else
      var rest := Split(s[1..], sep);
      [[s[0]] + rest[0]] + rest[1..]
  }

  lemma JoinEmptyHead(sep: string, parts: seq<string>)
    requires |parts| > 0
    ensures Join(sep, [""] + parts) == sep + Join(sep, parts)
  {
    assert ([""] + parts)[1..] == parts;
  }

  lemma JoinConsHead(sep: string, c: char, parts: seq<string>)
    requires |parts| > 0
    ensures Join(sep, [[c] + parts[0]] + parts[1..]) == [c] + Join(sep, parts)
  {
    var q := [[c] + parts[0]] + parts[1..];
    assert q[1..] == parts[1..];
  }

  /** Joining with one more piece appends the separator and the piece. */
  lemma {:induction false} JoinSnoc(sep: string, parts: seq<string>, last: string)
    requires |parts| > 0
    ensures Join(sep, parts + [last]) == Join(sep, parts) + sep + last
    decreases |parts|
  {
    var q := parts + [last];
    if |parts| > 1 {
      assert q[1..] == parts[1..] + [last];
      JoinSnoc(sep, parts[1..], last);
    }
  }

  /** Joining the pieces of `explode` with the same separator gives back the
      original string. */
  lemma {:induction false} JoinSplit(s: string, sep: string)
    requires |sep| > 0
    ensures Join(sep, Split(s, sep)) == s
    decreases |s|
  {
    if |s| < |sep| {
    } else if s[..|sep|] == sep {
      var t := s[|sep|..];
      JoinSplit(t, sep);
      JoinEmptyHead(sep, Split(t, sep));
      assert s == sep + t;
    } else {
      var rest := Split(s[1..], sep);
      JoinSplit(s[1..], sep);
      JoinConsHead(sep, s[0], rest);
      assert s == [s[0]] + s[1..];
    }
  }

  /** A string without the separator is a single piece. */
  lemma {:induction false} SplitWithoutSep(s: string, c: char)
    requires c !in s
    ensures Split(s, [c]) == [s]
    decreases |s|
  {
    if |s| >= 1 {
      assert s[..1] != [c] by { assert s[0] != c; }
      SplitWithoutSep(s[1..], c);
      assert [s[0]] + s[1..] == s;
    }
  }

  lemma {:induction false} SplitAfterPiece(p: string, c: char, t: string)
    requires c !in p
    ensures Split(p + [c] + t, [c]) == [p] + Split(t, [c])
    decreases |p|
  {
    var s := p + [c] + t;
    if |p| == 0 {
      assert s[..1] == [c] && s[1..] == t;
    } else {
      assert s[0] == p[0] && p[0] != c;
      assert s[..1] != [c];
      assert s[1..] == p[1..] + [c] + t;
      SplitAfterPiece(p[1..], c, t);
      assert [p[0]] + p[1..] == p;
    }
  }

  /** Splitting a join on a one-character separator gives back the pieces,
      provided no piece contains the separator. */
  lemma {:induction false} SplitJoin(parts: seq<string>, c: char)
    requires |parts| > 0
    requires forall i :: 0 <= i < |parts| ==> c !in parts[i]
    ensures Split(Join([c], parts), [c]) == parts
    decreases |parts|
  {
    if |parts| == 1 {
      SplitWithoutSep(parts[0], c);
    } else {
      SplitJoin(parts[1..], c);
      SplitAfterPiece(parts[0], c, Join([c], parts[1..]));
      assert [parts[0]] + parts[1..] == parts;
    }
  }

  /** The last piece of a split is the text after the last separator. */
  function LastPiece(s: string, sep: string): string
    requires |sep| > 0
  {
    var parts := Split(s, sep);
    parts[|parts| - 1]
  }

  /** The last piece is what follows the last separator. */
  lemma {:induction false} LastPieceAfterSep(dir: string, c: char, name: string)
    requires c !in name
    ensures LastPiece(dir + [c] + name, [c]) == name
    decreases |dir|
  {
    match IndexOf(dir, c)
    case None =>
      SplitAfterPiece(dir, c, name);
      SplitWithoutSep(name, c);
    case Some(j) =>
      var p, t := dir[..j], dir[j + 1..];
      assert dir == p + [c] + t;
      assert dir + [c] + name == p + [c] + (t + [c] + name);
      SplitAfterPiece(p, c, t + [c] + name);
      LastPieceAfterSep(t, c, name);
  }

  /** The last piece never contains a one-character separator. */
  lemma {:induction false} LastPieceHasNoSep(s: string, c: char)
    ensures c !in LastPiece(s, [c])
    decreases |s|
  {
    if |s| >= 1 {
      var rest := Split(s[1..], [c]);
      LastPieceHasNoSep(s[1..], c);
      if s[..1] == [c] {
        assert Split(s, [c]) == [""] + rest;
      } else {
        var parts := [[s[0]] + rest[0]] + rest[1..];
        assert Split(s, [c]) == parts;
        if |rest| == 1 {
          assert s[0] != c;
        } else {
          assert parts[|parts| - 1] == rest[|rest| - 1];
        }
      }
    }
  }
}
