/** Name resolution of the shared `plugin_dependencies` class: file and URL
    paths, capability names, translation parameters, capability lists and
    template names. The plugin's directories and names, fixed once at start
    up, are a `Plugin` record; Moodle's `get_string` and `has_capability`
    are function parameters. */
module PluginDeps {
  import opened Php
  import opened PhpArray
  import Util

  /** The static properties the plugin sets up when it starts. */
  datatype Plugin = Plugin(
    plugin: string,       // directory name, e.g. "proctoring"
    ptype: string,        // plugin type, e.g. "quizaccess"
    name: string,         // frankenstyle name, e.g. "quizaccess_proctoring"
    dirroot: string,
    wwwroot: string,
    pluginPath: string,
    pluginUrl: string)

  // ---- path ----

  predicate IsMoodleUrl(v: Value) {
    v.Obj? && v.cls == "moodle_url"
  }

  /** The roots `path` considers: the site root and the plugin root, as file
      paths or as URLs. */
  function Root(p: Plugin, useFilepath: bool): string {
    if useFilepath then p.dirroot else p.wwwroot
  }

  function PluginRoot(p: Plugin, useFilepath: bool): string {
    if useFilepath then p.pluginPath else p.pluginUrl
  }

  /** A path that already starts with one of the roots (an empty root
      matches everything). */
  predicate IsUnderRoot(p: Plugin, s: string, useFilepath: bool) {
    Util.StrStartsWith(s, Str(Root(p, useFilepath)), true) ||
    Util.StrStartsWith(s, Str(PluginRoot(p, useFilepath)), true)
  }

  /** A URL that `path` passes through in URL mode. */
  predicate IsOutsideLink(s: string) {
    StartsWith(s, "#") || StartsWith(s, "https://") || StartsWith(s, "http://")
  }

  /** `path`: an empty or non-string path gives the root (or false); links
      and already absolute paths pass through; anything else is put under
      the site root, or the plugin root when it starts with `~` or
      `fromPlugin` is set, with exactly one `/` joining them. */
  function Path(p: Plugin, path: Value, useFilepath: bool, fromPlugin: bool, falseIfWrong: bool): (r: Value)
    ensures (Empty(path) || !path.Str?) && !(!useFilepath && IsMoodleUrl(path)) ==>
              r == (if falseIfWrong then Bool(false) else Str(Root(p, useFilepath)))
    ensures !useFilepath && IsMoodleUrl(path) ==> r == path
    ensures path.Str? && !Empty(path) && !useFilepath && IsOutsideLink(path.s) ==> r == path
    ensures path.Str? && !Empty(path) && IsUnderRoot(p, path.s, useFilepath) ==> r == path
    ensures path.Str? && !Empty(path) && StartsWith(path.s, "~") &&
            !(!useFilepath && IsOutsideLink(path.s)) &&
            !IsUnderRoot(p, path.s, useFilepath) ==>
              r == Str(PluginRoot(p, useFilepath) + Util.StrAddPrefix(path.s[1..], "/", true).0)
    ensures path.Str? && !Empty(path) && !StartsWith(path.s, "~") &&
            !(!useFilepath && IsOutsideLink(path.s)) &&
            !IsUnderRoot(p, path.s, useFilepath) ==>
              r == Str((if fromPlugin then PluginRoot(p, useFilepath) else Root(p, useFilepath)) +
                       Util.StrAddPrefix(path.s, "/", true).0)
  {
    var prefix := Root(p, useFilepath);
    OutsideLinksMatch(path);
    if Empty(path) || !path.Str? then
      if !useFilepath && IsMoodleUrl(path) then path
      else if falseIfWrong then Bool(false) else Str(prefix)
    else if !useFilepath && Util.StrStartsWith(path.s, Arr(List([Str("#"), Str("https://"), Str("http://")])), true) then
      assert StrStartsWithAny(path.s, [Str("#"), Str("https://"), Str("http://")]);
      path
    else
      var pluginPrefix := PluginRoot(p, useFilepath);
      var roots := List([Str(prefix), Str(pluginPrefix)]);
      if Util.StrStartsWith(path.s, Arr(roots), true) then path
      else
        assert !Util.StrStartsWith(path.s, roots[0].val, true) && !Util.StrStartsWith(path.s, roots[1].val, true);
        var (stripped, tilde) := Util.StrRemPrefix(path.s, "~", true);
        var (slashed, _) := Util.StrAddPrefix(stripped, "/", true);
        Str((if fromPlugin || tilde then pluginPrefix else prefix) + slashed)
  }

  /** The three link heads, as the needle list `path` tests them with. */
  lemma OutsideLinksMatch(v: Value)
    ensures v.Str? && IsOutsideLink(v.s) ==> StrStartsWithAny(v.s, [Str("#"), Str("https://"), Str("http://")])
  {
    var s := ToStr(v);
    var links := List([Str("#"), Str("https://"), Str("http://")]);
    if StartsWith(s, "#") {
      assert Util.StrStartsWith(s, links[0].val, true);
    } else if StartsWith(s, "https://") {
      assert Util.StrStartsWith(s, links[1].val, true);
    } else if StartsWith(s, "http://") {
      assert Util.StrStartsWith(s, links[2].val, true);
    }
  }

  /** The items of a string-starts-with test over a list of needles. */
  predicate StrStartsWithAny(h: string, needles: seq<Value>) {
    Util.StrStartsWith(h, Arr(List(needles)), true)
  }

  /** Resolving a resolved path changes nothing. */
  lemma PathIdempotent(p: Plugin, path: Value, useFilepath: bool, fromPlugin: bool, falseIfWrong: bool)
    ensures var once := Path(p, path, useFilepath, fromPlugin, falseIfWrong);
            Path(p, once, useFilepath, fromPlugin, falseIfWrong) == once
  {
    var once := Path(p, path, useFilepath, fromPlugin, falseIfWrong);
    if once.Str? && !Empty(once) {
      var prefix := Root(p, useFilepath);
      var pluginPrefix := PluginRoot(p, useFilepath);
      if once != path {
        // `once` is the site root or one of the roots followed by a slashed path
        var s := once.s;
        if s == prefix {
          assert s[..|prefix|] == prefix;
        } else {
          var root :| (root == prefix || root == pluginPrefix) && |root| <= |s| && s[..|root|] == root;
          assert Util.StrStartsWith(s, Str(root), true);
        }
      }
    }
  }

  // ---- capabilities ----

  /** `get_full_capability`: a leading `~` is dropped; a name without `/` is
      put under `type/plugin:`, without doubling the `:`. */
  function GetFullCapability(p: Plugin, capability: string): (r: string)
    ensures var c := Util.StrRemPrefix(capability, "~", true).0;
            ('/' in c ==> r == c) &&
            ('/' !in c && StartsWith(c, ":") ==> r == p.ptype + "/" + p.plugin + c) &&
            ('/' !in c && !StartsWith(c, ":") ==> r == p.ptype + "/" + p.plugin + ":" + c)
  {
    var c := Util.StrRemPrefix(capability, "~", true).0;
    SlashHas(c);
    if !Util.StrHas(c, Str("/"), 0, true) then
      p.ptype + "/" + p.plugin + Util.StrAddPrefix(c, ":", true).0
    else c
  }

  /** `str_has($s, '/')` is membership of the slash. */
  lemma SlashHas(s: string)
    ensures Util.StrHas(s, Str("/"), 0, true) <==> '/' in s
  {
    if '/' in s {
      var i :| 0 <= i < |s| && s[i] == '/';
      assert s[i..i + 1] == "/";
      assert Util.OccursAt(s, "/", i, true);
    }
    if Util.StrHas(s, Str("/"), 0, true) {
      var i :| 0 <= i <= |s| && Util.OccursAt(s, "/", i, true);
      assert s[i..i + 1][0] == s[i];
    }
  }

  /** A full capability name is its own full name. */
  lemma GetFullCapabilityIdempotent(p: Plugin, capability: string)
    requires !StartsWith(capability, "~") && !StartsWith(p.ptype, "~")
    ensures GetFullCapability(p, GetFullCapability(p, capability)) == GetFullCapability(p, capability)
  {
    var once := GetFullCapability(p, capability);
    assert '/' in p.ptype + "/" + p.plugin + Util.StrAddPrefix(capability, ":", true).0 by {
      assert (p.ptype + "/" + p.plugin + Util.StrAddPrefix(capability, ":", true).0)[|p.ptype|] == '/';
    }
    assert !StartsWith(once, "~");
  }

  /** `has_capability` for this plugin: a missing or non-string name is never
      held; otherwise Moodle decides on the full name. */
  function HasCapability(p: Plugin, capability: Value, holds: string -> bool): (r: bool)
    ensures r ==> capability.Str? && !Empty(capability) && holds(GetFullCapability(p, capability.s))
    ensures capability.Str? && !Empty(capability) && holds(GetFullCapability(p, capability.s)) ==> r
  {
    !Empty(capability) && capability.Str? && holds(GetFullCapability(p, capability.s))
  }

  /** `has_any_capability`: true at the first capability held. */
  function HasAnyCapability(p: Plugin, capabilities: Entries, holds: string -> bool): (r: bool)
    ensures r <==> exists i :: 0 <= i < |capabilities| && HasCapability(p, capabilities[i].val, holds)
    ensures capabilities == [] ==> !r
    decreases |capabilities|
  {
    if |capabilities| == 0 then false
    else
      var rest := HasAnyCapability(p, capabilities[1..], holds);
      assert forall i :: 1 <= i < |capabilities| ==> capabilities[i] == capabilities[1..][i - 1];
      HasCapability(p, capabilities[0].val, holds) || rest
  }

  /** `has_all_capabilities`: false at the first capability not held. */
  function HasAllCapabilities(p: Plugin, capabilities: Entries, holds: string -> bool): (r: bool)
    ensures r <==> forall i :: 0 <= i < |capabilities| ==> HasCapability(p, capabilities[i].val, holds)
    ensures capabilities == [] ==> r
    decreases |capabilities|
  {
    if |capabilities| == 0 then true
    else
      var rest := HasAllCapabilities(p, capabilities[1..], holds);
      assert forall i :: 1 <= i < |capabilities| ==> capabilities[i] == capabilities[1..][i - 1];
      HasCapability(p, capabilities[0].val, holds) && rest
  }

  /** Holding all of a non-empty list means holding one of them. */
  lemma AllImpliesAny(p: Plugin, capabilities: Entries, holds: string -> bool)
    requires capabilities != []
    ensures HasAllCapabilities(p, capabilities, holds) ==> HasAnyCapability(p, capabilities, holds)
  {
    if HasAllCapabilities(p, capabilities, holds) {
      assert HasCapability(p, capabilities[0].val, holds);
    }
  }

  // ---- translation ----

  /** The key `str` gives a translation parameter: integer keys `k` become
      the placeholder name `{k}`. */
  function Placeholder(k: Key): (r: Key)
    ensures r.StrKey?
    ensures k.StrKey? ==> r == k
  {
    match k
    case IntKey(i) => StrKey("{" + IntToStr(i) + "}")
    case StrKey(s) => k
  }

  /** The parameters re-keyed one by one, later entries overwriting earlier
      ones under the same placeholder. */
  function Rekey(acc: Entries, es: Entries): Entries
    decreases |es|
  {
    if |es| == 0 then acc
    else Rekey(Set(acc, Placeholder(es[0].key), es[0].val), es[1..])
  }

  /** Some parameter is re-keyed to `k`. */
  predicate PlacedBy(es: Entries, k: Key) {
    exists e :: e in es && Placeholder(e.key) == k
  }

  lemma PlacedByCons(es: Entries, k: Key)
    requires |es| > 0
    ensures PlacedBy(es, k) <==> Placeholder(es[0].key) == k || PlacedBy(es[1..], k)
  {
    assert es == [es[0]] + es[1..];
  }

  /** The re-keyed array holds exactly the placeholders of the parameters
      (and whatever it started with). */
  lemma {:induction false} RekeyKeys(acc: Entries, es: Entries)
    ensures forall k :: Has(Rekey(acc, es), k) <==> Has(acc, k) || PlacedBy(es, k)
    decreases |es|
  {
    if |es| > 0 {
      var next := Set(acc, Placeholder(es[0].key), es[0].val);
      RekeyKeys(next, es[1..]);
      forall k ensures Has(Rekey(acc, es), k) <==> Has(acc, k) || PlacedBy(es, k) {
        PlacedByCons(es, k);
        assert Has(next, k) <==> Has(acc, k) || k == Placeholder(es[0].key);
      }
    }
  }

  /** Re-keyed parameters have string keys only. */
  lemma {:induction false} RekeyStringKeys(acc: Entries, es: Entries)
    requires forall i :: 0 <= i < |acc| ==> acc[i].key.StrKey?
    ensures forall i :: 0 <= i < |Rekey(acc, es)| ==> Rekey(acc, es)[i].key.StrKey?
    decreases |es|
  {
    if |es| > 0 {
      var next := Set(acc, Placeholder(es[0].key), es[0].val);
      forall i | 0 <= i < |next| ensures next[i].key.StrKey? {
        if i < |acc| && acc[i].key != Placeholder(es[0].key) {
          assert next[i] == acc[i];
        } else if !Has(next, next[i].key) {
          assert false;
        } else {
          assert next[i].key.StrKey? || Has(acc, next[i].key) || next[i].key == Placeholder(es[0].key) by {
            LookupPresent(next, i);
          }
          if next[i].key != Placeholder(es[0].key) {
            LookupFindsKey(acc, next[i].key);
          }
        }
      }
      RekeyStringKeys(next, es[1..]);
    }
  }

  /** An entry's key is present in its array. */
  lemma LookupPresent(es: Entries, i: int)
    requires 0 <= i < |es|
    ensures Has(es, es[i].key)
  {
    if i > 0 && es[0].key != es[i].key {
      LookupPresent(es[1..], i - 1);
    }
  }

  /** A key present in an array belongs to one of its entries. */
  lemma LookupFindsKey(es: Entries, k: Key)
    requires Has(es, k)
    ensures exists i :: 0 <= i < |es| && es[i].key == k
  {
    var v := Lookup(es, k).value;
    assert exists e :: e in es && e.key == k && e.val == v;
  }

  /** `str`: an empty identifier gives its number or ""; otherwise Moodle's
      translation with array parameters re-keyed to placeholders. */
  function GetStr(p: Plugin, identifier: Value, params: Value, plugin: Option<string>,
                  getString: (string, string, Value) -> string): (r: string)
    ensures Empty(identifier) && !IsNumeric(identifier) ==> r == ""
    ensures Empty(identifier) && IsNumeric(identifier) ==> r == ToStr(identifier)
    ensures !Empty(identifier) && params.Arr? && Truthy(params) ==>
              r == getString(ToStr(identifier), if plugin.Some? then plugin.value else p.name, Arr(Rekey([], params.entries)))
    ensures !Empty(identifier) && !(params.Arr? && Truthy(params)) ==>
              r == getString(ToStr(identifier), if plugin.Some? then plugin.value else p.name, params)
  {
    if Empty(identifier) then (if IsNumeric(identifier) then ToStr(identifier) else "")
    else
      var pl := if plugin.Some? then plugin.value else p.name;
      var a := if Truthy(params) && params.Arr? then Arr(Rekey([], params.entries)) else params;
      getString(ToStr(identifier), pl, a)
  }

  // ---- templates ----

  /** `render_from_template`'s template name: `false` (None) for an empty or
      non-string name; a leading `~` is dropped; a name without `/` gets
      `plugin/`, one starting with `/` gets the plugin name, any other name
      is kept. */
  function TemplateName(p: Plugin, name: Value): (r: Option<string>)
    ensures r.None? <==> Empty(name) || !name.Str?
    ensures r.Some? ==>
              var n := Util.StrRemPrefix(name.s, "~", true).0;
              ('/' !in n ==> r.value == p.name + "/" + n) &&
              (StartsWith(n, "/") ==> r.value == p.name + n) &&
              ('/' in n && !StartsWith(n, "/") ==> r.value == n)
  {
    if Empty(name) || !name.Str? then None
    else
      var n := Util.StrRemPrefix(name.s, "~", true).0;
      match IndexOf(n, '/')
      case None => Some(p.name + "/" + n)
      case Some(slash) => if slash == 0 then Some(p.name + n) else Some(n)
  }

  /** A resolved template name always names a component. */
  lemma TemplateNameHasSlash(p: Plugin, name: Value)
    requires TemplateName(p, name).Some?
    ensures '/' in TemplateName(p, name).value
  {
    var n := Util.StrRemPrefix(name.s, "~", true).0;
    var r := TemplateName(p, name).value;
    match IndexOf(n, '/')
    case None =>
      assert r == p.name + "/" + n;
      assert r[|p.name|] == '/';
    case Some(k) =>
      if k == 0 {
        assert r == p.name + n;
        assert r[|p.name|] == n[0];
      } else {
        assert r == n;
      }
  }
}
