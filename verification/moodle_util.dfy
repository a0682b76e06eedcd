/** The Moodle-facing helpers of the shared `moodle_util` class: config
    lookup, context selection, AMD module naming, file loading with early
    exit, debugging levels and the early exits of the course-access check.
    Loading a file and the Moodle checks behind course access are function
    parameters. */
module MoodleUtil {
  import opened Php
  import opened PhpArray
  import Util

  // ---- cfg ----

  /** `cfg`: the whole config object when no name is given; otherwise the
      named property, or `def` when it is unset or null. */
  function Cfg(config: Entries, name: Option<string>, def: Value): (r: Value)
    ensures name.None? ==> r == Obj("stdClass", config)
    ensures name.Some? && Isset(config, StrKey(name.value)) ==> Lookup(config, StrKey(name.value)) == Some(r)
    ensures name.Some? && !Isset(config, StrKey(name.value)) ==> r == def
  {
    if name.None? then Obj("stdClass", config)
    else if Isset(config, StrKey(name.value)) then At(config, StrKey(name.value))
    else def
  }

  /** A null result comes only from a null default or the whole object. */
  lemma CfgNullOnlyFromDefault(config: Entries, name: string, def: Value)
    ensures Cfg(config, Some(name), def) == Null ==> def == Null
  {
  }

  // ---- ctx ----

  /** Which context `ctx` asks Moodle for. */
  datatype ContextChoice = ById(contextid: Value) | Module(cmid: Value) | CourseCtx(courseid: Value) | System

  /** `ctx`: the context id first, then the course module, then the course,
      else the system context. */
  function Ctx(courseid: Value, cmid: Value, contextid: Value): (r: ContextChoice)
    ensures r.ById? <==> Truthy(contextid)
    ensures r.Module? <==> Empty(contextid) && Truthy(cmid)
    ensures r.CourseCtx? <==> Empty(contextid) && Empty(cmid) && Truthy(courseid)
    ensures r.System? <==> Empty(contextid) && Empty(cmid) && Empty(courseid)
    ensures r.ById? ==> r.contextid == contextid
    ensures r.Module? ==> r.cmid == cmid
    ensures r.CourseCtx? ==> r.courseid == courseid
  {
    if Truthy(contextid) then ById(contextid)
    else if Truthy(cmid) then Module(cmid)
    else if Truthy(courseid) then CourseCtx(courseid)
    else System
  }

  /** A more specific argument makes the less specific ones irrelevant. */
  lemma CtxIgnoresLowerPriority(courseid: Value, cmid: Value, contextid: Value, courseid': Value, cmid': Value)
    ensures Truthy(contextid) ==> Ctx(courseid, cmid, contextid) == Ctx(courseid', cmid', contextid)
    ensures Truthy(cmid) ==> Ctx(courseid, cmid, contextid) == Ctx(courseid', cmid, contextid)
  {
  }

  // ---- js_call_amd ----

  /** The AMD module name `js_call_amd` asks for: a name starting with `/`
      gets the plugin name in front, one without `/` gets `plugin/`, any
      other name is kept. */
  function AmdModuleName(pluginName: string, name: string): (r: string)
    ensures '/' !in name ==> r == pluginName + "/" + name
    ensures StartsWith(name, "/") ==> r == pluginName + name
    ensures '/' in name && !StartsWith(name, "/") ==> r == name
    ensures '/' in r
  {
    match IndexOf(name, '/')
    case None =>
      assert (pluginName + "/" + name)[|pluginName|] == '/';
      pluginName + "/" + name
    case Some(slash) =>
      if slash == 0 then
        assert (pluginName + name)[|pluginName|] == name[0];
        pluginName + name
      else name
  }

  /** Naming a named module changes nothing (plugin names never start
      with `/`). */
  lemma AmdModuleNameIdempotent(pluginName: string, name: string)
    requires !StartsWith(pluginName, "/")
    ensures AmdModuleName(pluginName, AmdModuleName(pluginName, name)) == AmdModuleName(pluginName, name)
  {
    var once := AmdModuleName(pluginName, name);
    if pluginName != "" && ('/' !in name || StartsWith(name, "/")) {
      assert once[0] == pluginName[0];
    }
  }

  /** The call `js_call_amd` makes on the page. */
  datatype AmdCall = AmdCall(amdName: string, func: string, params: Entries)

  /** `js_call_amd`: no call for an empty module; otherwise the named module
      with the parameters wrapped into a list when they are not one. */
  function JsCallAmd(pluginName: string, name: string, func: string, params: Value): (r: Option<AmdCall>)
    ensures r.None? <==> Empty(Str(name))
    ensures r.Some? ==> r.value.amdName == AmdModuleName(pluginName, name) && r.value.func == func
    ensures r.Some? && params.Arr? ==> r.value.params == params.entries
    ensures r.Some? && !params.Arr? ==> r.value.params == [Entry(IntKey(0), params)]
  {
    if Empty(Str(name)) then None
    else Some(AmdCall(AmdModuleName(pluginName, name), func, if params.Arr? then params.entries else List([params])))
  }

  // ---- loading files ----

  /** The paths `require_files` is given, as a list. */
  function FilesOf(filepaths: Value): seq<Value> {
    ValuesOf(Util.Val2Arr(filepaths, true))
  }

  /** Loads `files` in order and stops at the first one that fails; true
      iff every file loaded. `loads` stands for `require_file` on one path. */
  method RequireAll(files: seq<Value>, loads: Value -> bool) returns (ok: bool, attempted: seq<Value>)
    ensures ok <==> forall i :: 0 <= i < |files| ==> loads(files[i])
    ensures attempted <= files
    ensures ok ==> attempted == files
    ensures !ok ==> |attempted| > 0 && !loads(attempted[|attempted| - 1])
    ensures forall i :: 0 <= i < |attempted| - 1 ==> loads(attempted[i])
  {
    var i := 0;
    while i < |files| && loads(files[i])
      invariant 0 <= i <= |files|
      invariant forall j :: 0 <= j < i ==> loads(files[j])
    {
      i := i + 1;
    }
    if i < |files| {
      ok, attempted := false, files[..i + 1];
      assert forall j :: 0 <= j <= i ==> attempted[j] == files[j];
    } else {
      ok, attempted := true, files;
    }
  }

  /** `require_files`: the paths as a list, loaded in order until one
      fails. */
  method RequireFiles(filepaths: Value, loads: Value -> bool) returns (ok: bool, attempted: seq<Value>)
    ensures ok <==> forall i :: 0 <= i < |FilesOf(filepaths)| ==> loads(FilesOf(filepaths)[i])
    ensures attempted <= FilesOf(filepaths)
    ensures ok ==> attempted == FilesOf(filepaths)
    ensures !ok ==> |attempted| > 0 && !loads(attempted[|attempted| - 1])
    ensures forall i :: 0 <= i < |attempted| - 1 ==> loads(attempted[i])
  {
    ok, attempted := RequireAll(FilesOf(filepaths), loads);
  }

  /** The file `require_lib` loads: the path under the library directory,
      joined by exactly one `/`. */
  function LibPath(libdir: string, filepath: string): (r: string)
    ensures StartsWith(r, libdir + "/")
    ensures StartsWith(filepath, "/") ==> r == libdir + filepath
    ensures !StartsWith(filepath, "/") ==> r == libdir + "/" + filepath
  {
    var slashed := Util.StrAddPrefix(filepath, "/", true).0;
    assert (libdir + slashed)[..|libdir + "/"|] == libdir + "/";
    libdir + slashed
  }

  /** A leading slash makes no difference to the library path. */
  lemma LibPathLeadingSlash(libdir: string, filepath: string)
    ensures LibPath(libdir, "/" + filepath) == LibPath(libdir, filepath) || StartsWith(filepath, "/")
  {
  }

  /** `require_lib`: false for an empty path, otherwise whether the file
      under the library directory loads. */
  function RequireLib(libdir: string, filepath: Value, loads: string -> bool): (r: bool)
    ensures Empty(filepath) ==> !r
    ensures !Empty(filepath) ==> (r <==> loads(LibPath(libdir, ToStr(filepath))))
  {
    !Empty(filepath) && loads(LibPath(libdir, ToStr(filepath)))
  }

  // ---- e_debug ----

  const E_NONE: int := 0
  const E_NOTICE: int := 1
  const E_WARNING: int := 2
  const E_ERROR: int := 3

  /** What `e_debug` does with its message. */
  datatype DebugAction = NoOutput | Notice(message: string) | PhpWarning(message: string) | PhpError(message: string)

  /** `e_debug`: a Moodle notice, a PHP warning or a PHP error by level;
      `E_NONE` and unknown levels produce nothing (and return false). */
  function EDebug(message: string, level: int): (r: DebugAction)
    ensures r.NoOutput? <==> level !in {E_NOTICE, E_WARNING, E_ERROR}
    ensures r.Notice? <==> level == E_NOTICE
    ensures r.PhpWarning? <==> level == E_WARNING
    ensures r.PhpError? <==> level == E_ERROR
    ensures !r.NoOutput? ==> r.message == message
  {
    if level == E_NOTICE then Notice(message)
    else if level == E_WARNING then PhpWarning(message)
    else if level == E_ERROR then PhpError(message)
    else NoOutput
  }

  // ---- has_user_access_course ----

  /** The user record fields the early exits read. */
  datatype User = User(suspended: bool, deleted: bool)

  datatype Course = Course(id: int, visible: bool)

  /** `has_user_access_course`'s early exits: no user, a suspended or
      deleted user, or no course deny access; the site course grants it;
      everything else is Moodle's verdict `rest` on the course context,
      admin role, visibility, viewing and enrolment. */
  function HasUserAccessCourse(user: Option<User>, course: Option<Course>, siteId: int, rest: Course -> bool): (r: bool)
    ensures user.None? || user.value.suspended || user.value.deleted ==> !r
    ensures course.None? ==> !r
    ensures user.Some? && !user.value.suspended && !user.value.deleted && course.Some? ==>
              (course.value.id == siteId ==> r) &&
              (course.value.id != siteId ==> (r <==> rest(course.value)))
  {
    if user.None? || user.value.suspended || user.value.deleted then false
    else if course.None? then false
    else if course.value.id == siteId then true
    else rest(course.value)
  }
}
