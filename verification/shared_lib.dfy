/** The plugin's own library class: configuration values with their
    defaults and the class lists of its layout `div`s. The plugin settings
    (`get_config`) are a function parameter; the HTML is a small tree. */
module SharedLib {
  import opened Php
  import opened PhpArray
  import Util

  const PLUGIN_NAME: string := "quizaccess_proctoring"
  const CLASS_CONTAINER: string := PLUGIN_NAME + "-container"
  const CLASS_ROW: string := PLUGIN_NAME + "-row"
  const CLASS_COL: string := PLUGIN_NAME + "-col"

  /** PHP's `$a ?: $b`. */
  function Elvis(a: Value, b: Value): Value {
    if Truthy(a) then a else b
  }

  // ---- configuration ----

  /** `cfg_camshotdelay`: the configured delay in seconds, as milliseconds;
      30 seconds when unset, empty or "0". */
  function CfgCamshotdelay(config: string -> Value): (r: int)
    ensures Empty(config("autoreconfigurecamshotdelay")) ==> r == 30000
    ensures !Empty(config("autoreconfigurecamshotdelay")) ==> r == IntCast(config("autoreconfigurecamshotdelay")) * 1000
    ensures r % 1000 == 0
  {
    IntCast(Elvis(config("autoreconfigurecamshotdelay"), Int(30))) * 1000
  }

  /** A delay configured as the decimal text of `n` seconds gives `n`
      thousand milliseconds. */
  lemma CamshotdelayOfSeconds(config: string -> Value, n: int)
    requires n != 0 && config("autoreconfigurecamshotdelay") == Str(IntToStr(n))
    ensures CfgCamshotdelay(config) == n * 1000
  {
    IntToStrRoundTrip(n);
    var t := IntToStr(n);
    assert t == "0" ==> StrToInt(t) == 0;
    assert t != "";
  }

  /** `cfg_imagewidth`: the configured width, 230 when unset or empty. */
  function CfgImagewidth(config: string -> Value): (r: int)
    ensures Empty(config("autoreconfigureimagewidth")) ==> r == 230
    ensures !Empty(config("autoreconfigureimagewidth")) ==> r == IntCast(config("autoreconfigureimagewidth"))
  {
    IntCast(Elvis(config("autoreconfigureimagewidth"), Int(230)))
  }

  /** A flag setting as 0 or 1. */
  function Flag(v: Value): (r: int)
    ensures r == 0 || r == 1
    ensures r == 1 <==> Truthy(v)
  {
    if Truthy(v) then 1 else 0
  }

  /** `cfg_enablescreenshare`. */
  function CfgEnablescreenshare(config: string -> Value): (r: int)
    ensures r == 0 || r == 1
    ensures r == 1 <==> Truthy(config("screenshareenablechk"))
  {
    Flag(config("screenshareenablechk"))
  }

  /** `cfg_faceidcheck`: the same reading as `cfg_enablescreenshare`, of
      its own setting, since the class has one such function per flag. */
  function CfgFaceidcheck(config: string -> Value): (r: int)
    ensures r == 0 || r == 1
    ensures r == 1 <==> Truthy(config("fcheckstartchk"))
  {
    Flag(config("fcheckstartchk"))
  }

  // ---- layout ----

  /** The HTML the layout helpers produce: text, or a `div` with a class
      list around more HTML. */
  datatype Html = Text(content: Value) | Div(classes: Entries, body: Html)

  /** `_sp_div`'s class list: `str2arr` of the main classes (a string is
      split on spaces; as written, an array of classes is dropped), then the
      additional classes as one space-joined item when there are any. */
  function SpDivClasses(mainClass: Value, addClass: Value): (r: Entries)
    ensures mainClass.Str? && mainClass.s != "" && Empty(addClass) ==>
              r == List(Util.StrValues(Split(mainClass.s, " ")))
    ensures mainClass.Str? && mainClass.s != "" && !Empty(addClass) ==>
              r == List(Util.StrValues(Split(mainClass.s, " ")) + [Util.Arr2Str(addClass, Str(""), " ")])
    ensures mainClass.Arr? && mainClass.entries != [] && Empty(addClass) ==> r == []
    ensures (mainClass.Arr? || (Empty(mainClass) && !IsNumeric(mainClass))) && !Empty(addClass) ==>
              r == List([Util.Arr2Str(addClass, Str(""), " ")])
  {
    var classes := Util.Str2ArrAsWritten(mainClass, Arr([]), " ");
    if Empty(addClass) then classes
    else
      var add := Util.Arr2Str(addClass, Str(""), " ");
      WordsThenOne(if mainClass.Str? then mainClass.s else "", add);
      assert Push([], add) == List([add]);
      Push(classes, add)
  }

  /** Pushing onto the words of a text appends to the list. */
  lemma WordsThenOne(s: string, add: Value)
    ensures var words := Util.StrValues(Split(s, " "));
            Push(List(words), add) == List(words + [add])
  {
    var words := Util.StrValues(Split(s, " "));
    ListIsList(words);
    NextIndexOfList(List(words));
    ListSnoc(words, add);
  }

  /** A single class name (no space) followed by the additional classes. */
  lemma SpDivOfOneClass(name: string, addClass: Value)
    requires name != "" && ' ' !in name
    ensures !Empty(addClass) ==> SpDivClasses(Str(name), addClass) == List([Str(name), Util.Arr2Str(addClass, Str(""), " ")])
    ensures Empty(addClass) ==> SpDivClasses(Str(name), addClass) == List([Str(name)])
  {
    SplitWithoutSep(name, ' ');
    assert Split(name, " ") == [name];
    assert Util.StrValues([name]) == [Str(name)];
    assert [Str(name)] + [Util.Arr2Str(addClass, Str(""), " ")] == [Str(name), Util.Arr2Str(addClass, Str(""), " ")];
  }

  function SpDiv(content: Html, mainClass: Value, addClass: Value): Html {
    Div(SpDivClasses(mainClass, addClass), content)
  }

  function DRow(content: Html, addClass: Value): Html {
    SpDiv(content, Str(CLASS_ROW), addClass)
  }

  function DCol(content: Html, addClass: Value): Html {
    SpDiv(content, Str(CLASS_COL), addClass)
  }

  /** `d_row_col`: a row `div` holding a column `div` holding the content,
      each led by its plugin class. */
  function DRowCol(content: Html, addClassRow: Value, addClassCol: Value): (r: Html)
    ensures r.Div? && r.body.Div? && r.body.body == content
    ensures |r.classes| > 0 && r.classes[0] == Entry(IntKey(0), Str(CLASS_ROW))
    ensures |r.body.classes| > 0 && r.body.classes[0] == Entry(IntKey(0), Str(CLASS_COL))
  {
    SpDivOfOneClass(CLASS_ROW, addClassRow);
    SpDivOfOneClass(CLASS_COL, addClassCol);
    DRow(DCol(content, addClassCol), addClassRow)
  }
}
