# Proctoring quiz access rule: a Dafny model

This project models the core of the Moodle quiz access rule "proctoring" (`quizaccess_proctoring`).
The rule makes students take webcam snapshots during a quiz attempt. A background job later compares
each snapshot with the student's profile picture, using either Amazon Rekognition ("AWS") or a
BS face-match service ("BS").

The model covers four parts:

- **The face-match pipeline** (`lib.php`), in `FaceMatch`.
  - The producer `log_specific_quiz` marks the reports of one (course, module, user) triple as attempted and queues comparison tasks.
  - The worker `execute_fm_task` takes at most five tasks and interprets each backend answer as a similarity. It writes the score to the report, records at most one warning per triple, and deletes the task.
  - The whole database is one immutable record: report and task maps, the API audit log, and the warnings.
- **The shared helper library** (`classes/shared/*`, `classes/shared_lib.php`):
  - PHP values and ordered arrays (`Php`, `PhpArray`);
  - string and list helpers (`Util`);
  - the nested-key memo store (`GlobalStore`);
  - SQL fragment builders (`DbUtil`);
  - path, capability and template naming (`PluginDeps`);
  - config, context, AMD and file-loading helpers (`MoodleUtil`);
  - visibility, group and cache helpers (`DataUtil`);
  - menu builders (`PdUtil`);
  - the plugin's config defaults and layout classes (`SharedLib`).
- **The quiz rule** (`rule.php`), in `QuizRule`: the preflight check, `make`, and the per-quiz settings row.
- **The report helper** (`classes/addtional_settings_helper.php`), in `SettingsHelper`: the search where-clause, and the cascading deletion of logs and screenshots.

Anything the plugin gets from outside is a parameter of the function that uses it:

- Moodle itself: capabilities, translations, `get_in_or_equal`, per-user visibility, file storage;
- the backends' answers;
- the random sample of the producer;
- whether the page is served securely.

## Model

| member | source | states |
|---|---|---|
| Util.Any | classes/shared/util.php:32-40 | the result is truthy iff some argument is truthy, and is then the first such argument; otherwise it is false |
| Util.All | classes/shared/util.php:49-57 | true iff every argument is truthy (so true for no arguments) |
| Util.AllIsNotAnyFalsy | classes/shared/util.php:32-57 | `all` holds exactly when `any` finds no falsy argument |
| Util.GetId | classes/shared/util.php:83-91 | an integer is its own id, integer text gives the number it denotes, an object gives its `id` property or 0, a non-numeric non-object gives 0 |
| Util.GetIdOfIntString | classes/shared/util.php:83-91 | the decimal text of an integer gives back that integer as id |
| Util.Arr2Str | classes/shared/util.php:144-164 | an empty non-numeric list yields `add` unchanged; otherwise the imploded list, followed by the separator and `add` when `add` is a non-empty or numeric scalar, with no separator when the imploded list is "" |
| Util.Arr2StrOfList | classes/shared/util.php:144-164 | a list of strings is imploded with the separator |
| Util.Arr2StrAppends | classes/shared/util.php:144-164 | imploding a list with a text added equals imploding the list with that text appended |
| Util.Str2ArrAsWritten | classes/shared/util.php:176-196 | the code as written: an empty input gives `add` as an array, a non-empty text with no `add` is the list of its pieces, and a non-empty array with no `add` gives the empty array |
| Util.Str2ArrAsWrittenDropsArray | classes/shared/util.php:176-196 | `str2arr(['a'])` as written returns `[]` |
| Util.Str2Arr | classes/shared/util.php:166-196 | corrected: an array is returned as it is (merged with `add`), a text is exploded on the separator, and an empty value yields `add` |
| Util.Str2ArrAsWrittenOffArrays | classes/shared/util.php:176-196 | the code as written and the corrected reading agree on every input that is not an array |
| Util.Str2ArrOfText | classes/shared/util.php:176-196 | a text is split at every separator occurrence, as a list |
| Util.Str2ArrOfArr2Str | classes/shared/util.php:144-196 | exploding an imploded list of strings free of a one-character separator gives the list back |
| Util.Arr2StrOfStr2Arr | classes/shared/util.php:144-196 | imploding an exploded text gives the text back |
| Util.StrHas | classes/shared/util.php:289-305 | a string needle is found iff it occurs at or after the offset; an empty needle is always found; a needle that is neither string nor array is never found |
| Util.StrStartsWith | classes/shared/util.php:314-336 | an empty needle matches; a longer needle does not; a case-sensitive string needle matches iff it is a prefix; a non-empty array needle matches iff one of its items does; any other needle does not |
| Util.StrEndsWith | classes/shared/util.php:345-367 | the same rules with "suffix" in place of "prefix", including the array rule |
| Util.StartsWithIgnoringCase | classes/shared/util.php:314-336 | a case-sensitive match is also a case-insensitive match, for string and array needles |
| Util.StartsWithAnyOf | classes/shared/util.php:314-336 | a list of string needles matches iff one of them is empty or a prefix |
| Util.EndsWithAnyOf | classes/shared/util.php:345-367 | a list of string needles matches iff one of them is empty or a suffix |
| Util.EndsWithIsReversedStartsWith | classes/shared/util.php:314-367 | a text ends with a needle iff its reversal starts with the reversed needle |
| Util.StrAddPrefix | classes/shared/util.php:379-385 | returns true iff the text did not start with the prefix, prepends it exactly then, and the text then starts with it |
| Util.StrRemPrefix | classes/shared/util.php:397-403 | returns true iff the text starts with the prefix; the rest is what follows the prefix; otherwise the text is unchanged |
| Util.RemAfterAdd | classes/shared/util.php:379-403 | removing a prefix right after adding it gives the original text back and reports success |
| Util.AddPrefixIdempotent | classes/shared/util.php:379-385 | adding the same prefix twice changes nothing the second time and returns false |
| Util.Val2Arr | classes/shared/util.php:413-420 | an empty value becomes `[]` when asked; an array is unchanged; anything else is wrapped at key 0 |
| Util.Val2ArrIdempotent | classes/shared/util.php:413-420 | applying it to its own result changes nothing |
| Util.Val2ArrMulti | classes/shared/util.php:431-438 | a list with one converted array per argument, in order |
| Util.FreeKey | classes/shared/util.php:689-709 | the chosen integer key is unset, and every key passed over in the search direction is set |
| Util.Add2List | classes/shared/util.php:689-709 | an empty list stays empty unless `add_if_empty`; otherwise the value lands under a key that was free, first when added at the start, and every old entry keeps its value |
| Util.ArrayRemoveByKeys | classes/shared/util.php:812-821 | exactly the entries whose key is not among the keys `array_fill_keys` makes of the listed values remain; when renumbered, the result is a list holding exactly the surviving values |
| Util.ArrayRemoveRenumbers | classes/shared/util.php:812-821 | renumbering gives the surviving values in their order, keyed 0, 1, ... |
| Util.ArrayRemoveByKeysConcat | classes/shared/util.php:812-821 | removal works entry by entry, so survivors keep their relative order |
| Util.ArrayRemoveNoKeys | classes/shared/util.php:812-821 | with no keys listed the array is unchanged |
| Php.FillKey | classes/shared/util.php:812-814 | an integer keeps its key; null and false fill the key "", true the key 1, an array the key "Array"; only an object has no key |
| Php.FillKeyByText | classes/shared/util.php:803-814 | every non-object value fills the key of its string form, so keys equal in string form are removed together |
| Util.ArrayRemoveByStringForm | classes/shared/util.php:803-821 | a listed false removes the key "" and leaves the key 0; a listed "0" removes the key 0 |
| Util.IssetInList | classes/shared/util.php:264-279 | a non-array or empty list gives the default; a value loosely equal (`in_array`) to an item gives itself; otherwise the default, or null or the first item when the default is null; the result is always the value, the default, null or a list member |
| Util.IssetInListFindsItem | classes/shared/util.php:264-279 | every item of the list is found |
| Php.LooseEqReflexive | classes/shared/util.php:264-279 | every value is loosely equal to itself, the fact `in_array` needs to find a list's own items |
| Util.IssetInListIsLoose | classes/shared/util.php:264-279 | "1" is found in `[1]`, and "abc" is not found in `[0]` (PHP 8 comparison) |
| Util.KeyPart | classes/shared/util.php:956-967 | a string is kept; a non-numeric non-string becomes "1" or "0" by truthiness |
| Util.MakeKey | classes/shared/util.php:956-967 | no arguments give "0"; one argument gives its own key part; when no part contains `_`, splitting the key at `_` gives back the parts in order |
| Util.Val2KeyIsMakeKeyOfOne | classes/shared/util.php:976-984 | a scalar's key is the key of a one-argument list |
| Util.TimePartsBounded | classes/shared/util.php:640-676 | at most `count` components (at least one), never worth more than the difference |
| Util.TimePartsUnits | classes/shared/util.php:640-676 | each component is a positive count of one of the known units |
| Util.TimePartsOrdered | classes/shared/util.php:640-676 | components come from the largest unit down |
| Util.TimePartsNonEmpty | classes/shared/util.php:640-676 | a difference of at least one unit gives at least one component |
| Util.TimePartsExact | classes/shared/util.php:640-676 | with seconds as the last unit and a component for every unit allowed, they add up to the difference exactly |
| Util.TimePartsLeading | classes/shared/util.php:640-676 | the first component uses the largest unit that fits in the difference |
| Util.TimeDiffToStrMax | classes/shared/util.php:640-676 | equal timestamps give the `ifnull` text; otherwise between one and `count` components joined by the separator |
| Util.TimeDiffSymmetric | classes/shared/util.php:640-676 | swapping the two timestamps gives the same text |
| GlobalStore.GKeys | classes/shared/global_util.php:37-48 | the key list starts with the function; empty add-keys give only the function |
| GlobalStore.GKeysIsMerge | classes/shared/global_util.php:37-48 | the key list is `[function]` merged with the add-keys made into an array |
| GlobalStore.GKeysOfList | classes/shared/global_util.php:37-48 | an array of add-keys is appended after the function |
| GlobalStore.KeyPath | classes/shared/global_util.php:61-83 | the keys are usable iff every element converts to an array key, and they are then those keys in order |
| GlobalStore.Get | classes/shared/global_util.php:61-83 | a path that stops at an unset step gives the default; the empty path gives the store |
| GlobalStore.IsSetGetIgnoresDefault | classes/shared/global_util.php:61-83 | on a set path the default does not matter and the value is not null |
| GlobalStore.Put | classes/shared/global_util.php:61-83 | writing at the empty path gives the value; any other successful write leaves an array |
| GlobalStore.PutSucceedsIffWritable | classes/shared/global_util.php:61-83 | a write succeeds iff every step on the path is an array or unset |
| GlobalStore.PutFreshSucceeds | classes/shared/global_util.php:61-83 | writing into an empty store always succeeds |
| GlobalStore.GetAfterPut | classes/shared/global_util.php:61-83 | reading a written path gives the written value, or the default when null was written |
| GlobalStore.PutFrame | classes/shared/global_util.php:61-83 | a write leaves every path that diverges from it unchanged |
| GlobalStore.GGet | classes/shared/global_util.php:94-96 | reads the store at the function's key path, and is undefined only when the keys are unusable |
| GlobalStore.StoredValue | classes/shared/global_util.php:109-114 | null is stored as false unless `save_null`; every other value is stored as it is |
| GlobalStore.GSet | classes/shared/global_util.php:109-114 | succeeds iff the keys are usable and the path is writable, and stores the converted value |
| GlobalStore.GSetThenGet | classes/shared/global_util.php:94-114 | after `g_set` of a value, `g_get` returns that value (null read back as false) |
| GlobalStore.GIsset | classes/shared/global_util.php:138-150 | true only on usable keys where every step is set |
| GlobalStore.GIssetMeansGetIgnoresDefault | classes/shared/global_util.php:94-150 | when `g_isset` holds, `g_get` returns a non-null value independent of the default |
| GlobalStore.RemoveAt | classes/shared/global_util.php:160-180 | reports true iff the path was set, then unsets it and leaves an array; otherwise the store is unchanged |
| GlobalStore.RemoveAtFrame | classes/shared/global_util.php:160-180 | unsetting a path leaves every path that diverges from it unchanged |
| GlobalStore.GRemove | classes/shared/global_util.php:160-180 | returns true iff the entry was set; then it is no longer set; otherwise nothing changes |
| GlobalStore.GRemoveFrame | classes/shared/global_util.php:160-180 | `g_remove` leaves `g_get` of every diverging key path unchanged |
| GlobalStore.GRemoveFunctionsData | classes/shared/global_util.php:192-197 | every listed function's data is gone and every other top-level entry is kept |
| GlobalStore.RemoveAll | classes/shared/global_util.php:192-197 | removes exactly the named top-level entries |
| GlobalStore.GRemoveAllNedData | classes/shared/global_util.php:206-208 | afterwards no path is set |
| DbUtil.SqlFilterParams | classes/shared/db_util.php:39-47 | keeps exactly the entries with a non-empty value, key and value unchanged |
| DbUtil.SqlFilterParamsIdempotent | classes/shared/db_util.php:39-47 | filtering twice is filtering once |
| DbUtil.SqlWhere | classes/shared/db_util.php:86-91 | empty conditions give ""; otherwise "WHERE" (or nothing) and the conditions each in parentheses, joined by the condition word |
| DbUtil.SqlWhereOfOne | classes/shared/db_util.php:86-91 | a single condition renders as `\nWHERE ((c))`, or `\n((c))` without the word |
| DbUtil.SqlWhereOfTwo | classes/shared/db_util.php:86-91 | two conditions render as `((a) COND (b))` |
| DbUtil.SqlWhereWithWord | classes/shared/db_util.php:86-91 | the form with `WHERE` differs from the bare form only in its opening, and both are empty together |
| DbUtil.OptionalClause | classes/shared/db_util.php:62-75 | an empty part contributes ""; otherwise the clause starts with its keyword |
| DbUtil.SqlGenerate | classes/shared/db_util.php:62-75 | the query is SELECT, then FROM with the joins, the where clause, GROUP BY, ORDER BY and LIMIT, in that order, each optional clause empty when its part is empty |
| DbUtil.SqlGenerateMinimal | classes/shared/db_util.php:62-75 | an empty select becomes `alias.*` and the query is just SELECT and FROM |
| DbUtil.SqlGenerateExample | classes/shared/db_util.php:62-75 | a condition, an order and a limit render as `SELECT a.*`, `FROM {t} AS a`, `WHERE ((...))`, `ORDER BY ...`, `LIMIT 5` |
| DbUtil.SqlAddGetInOrEqualOptions | classes/shared/db_util.php:102-106 | appends exactly one where entry at the next index and keeps every existing named parameter |
| DbUtil.DotsToUnderscores | classes/shared/db_util.php:121-157 | the parameter prefix has every `.` replaced by `_` and nothing else changed |
| DbUtil.Clauses | classes/shared/db_util.php:121-157 | one clause per usable column (present with a non-empty value), in column order: `column sql` and the parameters `get_in_or_equal` gives under the prefix `prefix_column_` with dots made underscores |
| DbUtil.ClausesNone | classes/shared/db_util.php:121-157 | there are no clauses iff no column is usable, and never more clauses than columns |
| DbUtil.SqlGetInOrEqualOptions | classes/shared/db_util.php:121-157 | empty options or no usable column give an empty where and no parameters, and only then; otherwise the where is the list of clauses, or as text the clauses each in parentheses joined by the condition word after `WHERE` (or nothing), and the parameters are all the clauses' parameters merged |
| DbUtil.OptionsWhereForms | classes/shared/db_util.php:121-157 | the text where clause is `sql_where` of the list form, with the same parameters |
| DbUtil.SqlGetInOrEqualOptionsList | classes/shared/db_util.php:172-177 | the clauses are appended to the where list and every existing parameter is kept |
| PluginDeps.Path | classes/shared/plugin_dependencies.php:337-366 | an empty or non-string path gives the root or false; outside links and paths under a root pass through; a `~` path gets the plugin root; any other path gets the plugin root when asked, else the site root; exactly one `/` joins them |
| PluginDeps.PathIdempotent | classes/shared/plugin_dependencies.php:337-366 | resolving a resolved path changes nothing |
| PluginDeps.GetFullCapability | classes/shared/plugin_dependencies.php:375-384 | strips a leading `~`; a name with `/` is kept; otherwise `type/plugin:` is prepended without doubling `:` |
| PluginDeps.GetFullCapabilityIdempotent | classes/shared/plugin_dependencies.php:375-384 | a full capability name is its own full name |
| PluginDeps.HasCapability | classes/shared/plugin_dependencies.php:407-412 | true iff the capability is a non-empty string whose full name holds |
| PluginDeps.HasAnyCapability | classes/shared/plugin_dependencies.php:431-438 | true iff some listed capability holds; false for none listed |
| PluginDeps.HasAllCapabilities | classes/shared/plugin_dependencies.php:457-464 | true iff every listed capability holds; true for none listed |
| PluginDeps.AllImpliesAny | classes/shared/plugin_dependencies.php:431-464 | on a non-empty list, all holding implies some holding |
| PluginDeps.Placeholder | classes/shared/plugin_dependencies.php:194-213 | every placeholder key is a string; string keys are kept |
| PluginDeps.RekeyKeys | classes/shared/plugin_dependencies.php:194-213 | the re-keyed parameters have exactly the placeholders of the given keys |
| PluginDeps.RekeyStringKeys | classes/shared/plugin_dependencies.php:194-213 | after re-keying every key is a string key |
| PluginDeps.GetStr | classes/shared/plugin_dependencies.php:194-213 | an empty identifier gives "" (or itself when numeric); otherwise the translation, with array parameters re-keyed |
| PluginDeps.TemplateName | classes/shared/plugin_dependencies.php:556-569 | defined iff the name is a non-empty string; no `/` gets `plugin/`, a leading `/` gets `plugin`, any other name is kept |
| PluginDeps.TemplateNameHasSlash | classes/shared/plugin_dependencies.php:556-569 | every resolved template name contains a `/` |
| MoodleUtil.Cfg | classes/shared/moodle_util.php:76-83 | no name gives the whole config; a set name gives its value; otherwise the default |
| MoodleUtil.CfgNullOnlyFromDefault | classes/shared/moodle_util.php:76-83 | a null result can only come from a null default |
| MoodleUtil.Ctx | classes/shared/moodle_util.php:98-108 | the context id wins, then the module id, then the course id, otherwise the system context |
| MoodleUtil.CtxIgnoresLowerPriority | classes/shared/moodle_util.php:98-108 | once a higher-priority id is given, the lower ones do not matter |
| MoodleUtil.AmdModuleName | classes/shared/moodle_util.php:161-181 | no `/` gets `plugin/`, a leading `/` gets `plugin`, other names are kept; the result always contains `/` |
| MoodleUtil.AmdModuleNameIdempotent | classes/shared/moodle_util.php:161-181 | naming a named module changes nothing |
| MoodleUtil.JsCallAmd | classes/shared/moodle_util.php:161-181 | no call iff the module is empty; otherwise the call uses the module name and wraps non-array params |
| MoodleUtil.RequireAll | classes/shared/moodle_util.php:229-262 | true iff every file loads; files are tried in order and nothing is tried after the first failure |
| MoodleUtil.RequireFiles | classes/shared/moodle_util.php:255-262 | the same, for a single path or a list of paths |
| MoodleUtil.LibPath | classes/shared/moodle_util.php:270-278 | the path is placed under the library directory with exactly one `/` added when missing |
| MoodleUtil.RequireLib | classes/shared/moodle_util.php:270-278 | an empty path gives false; otherwise whether the library path loads |
| MoodleUtil.EDebug | classes/shared/moodle_util.php:479-491 | notice, warning and error levels raise that kind with the message; every other level outputs nothing |
| MoodleUtil.HasUserAccessCourse | classes/shared/moodle_util.php:305-374 | a missing, suspended or deleted user and a missing course give false; the site course gives true; otherwise the remaining checks decide |
| DataUtil.CalcActivityVisibility | classes/shared/data_util.php:1077-1092 | false without view; false when not visible and unavailable counts as invisible or no info; true otherwise |
| DataUtil.UnavailableAsInvisibleHidesMore | classes/shared/data_util.php:1077-1092 | treating unavailable as invisible never makes an activity visible |
| DataUtil.CheckUsers | classes/shared/data_util.php:1287-1312 | the loop computes any/all of per-user visibility as the rule asks |
| DataUtil.CmVisibilityByUserlist | classes/shared/data_util.php:1287-1312 | no users checks the global user only; an invisible global user fails when checked; otherwise any/all over the users |
| DataUtil.ImportantActivities | classes/shared/data_util.php:1430-1472 | an empty compare list gives nothing; no list and no users keep all; otherwise exactly the activities kept by list and user rule |
| DataUtil.ImportantActivitiesSubset | classes/shared/data_util.php:1430-1472 | the result is a key-preserving sub-list of the activities |
| DataUtil.ChosenGroup | classes/shared/data_util.php:170-191 | none for no groups; the only group; otherwise the requested, then the cached, then the first group |
| DataUtil.ChosenGroupIsAGroup | classes/shared/data_util.php:170-191 | the chosen group is one of the groups |
| DataUtil.ObjectsById | classes/shared/data_util.php:892-922 | exactly the users' ids become keys, each mapping to a user with that id |
| DataUtil.UsersByIds | classes/shared/data_util.php:892-922 | exactly the given ids become keys |
| DataUtil.UserListOf | classes/shared/data_util.php:892-922 | a list of objects is re-keyed by id; an associative array of objects is kept; ids are looked up |
| DataUtil.GetUserList | classes/shared/data_util.php:892-922 | an empty input gives `[]`; otherwise the list built from the input made into an array |
| DataUtil.PurgeKeys | classes/shared/data_util.php:1601-1627 | an empty selection purges all default keys; otherwise exactly the selected default keys; never a non-default key |
| DataUtil.PurgeCourseDependedCaches | classes/shared/data_util.php:1601-1627 | the purged caches are gone and every other cache is kept |
| DataUtil.PurgeKeepsOtherCaches | classes/shared/data_util.php:1601-1627 | a cache outside the default keys is never touched |
| PdUtil.LastSet | classes/shared/pd_util.php:59-67 | the value of a set property among the names, or none when none is set |
| PdUtil.Contribution | classes/shared/pd_util.php:50-70 | a string record keeps its key; a record without the first name is skipped; others put name to value |
| PdUtil.Menu | classes/shared/pd_util.php:43-74 | fails iff some record cannot be a key; the keys are exactly those contributed |
| PdUtil.MenuValuesFromRecords | classes/shared/pd_util.php:50-70 | every menu value comes from some record |
| PdUtil.Records2Menu | classes/shared/pd_util.php:36-74 | empty records, second name or first name give `[]`; otherwise the menu over the records |
| PdUtil.Records2MenuKeys | classes/shared/pd_util.php:50-57 | string records keep their key, and every key comes from a string record or one having the first name |
| PdUtil.MenuLabel | classes/shared/pd_util.php:87-101 | surround, translation by the plugin helper's `str`, optional `(extra)`, surround; an empty string translates to "" without the string manager |
| PdUtil.LastLabelled | classes/shared/pd_util.php:92-97 | the string whose label a key keeps: one with that key and no later string with it, none iff no string has the key |
| PdUtil.Labels | classes/shared/pd_util.php:87-101 | the keys are the old keys and the label keys of the strings; each label key holds the label of the last string with that key; other keys are unchanged |
| PdUtil.Strings2Menu | classes/shared/pd_util.php:87-101 | empty or non-array input gives `[]`; otherwise keys are the strings or their original keys, each holding the label of the last string with that key |
| PdUtil.Strings2MenuLastWins | classes/shared/pd_util.php:92-97 | under either kind of key, a string whose key no later string takes is shown with its own label |
| PdUtil.LabelsByOriginalKey | classes/shared/pd_util.php:87-101 | keyed by original key, every string's key maps to that string's label |
| PdUtil.LabelsKeepUntouched | classes/shared/pd_util.php:87-101 | keys no string uses are kept |
| SharedLib.CfgCamshotdelay | classes/shared_lib.php:33-35 | empty config gives 30000; otherwise the configured seconds times 1000; always whole seconds |
| SharedLib.CamshotdelayOfSeconds | classes/shared_lib.php:33-35 | a configured non-zero integer n gives n times 1000 |
| SharedLib.CfgImagewidth | classes/shared_lib.php:42-44 | empty config gives 230; otherwise the integer value |
| SharedLib.Flag | classes/shared_lib.php:51-62 | 1 iff the value is truthy, else 0 |
| SharedLib.CfgEnablescreenshare | classes/shared_lib.php:51-53 | 0 or 1, 1 iff the setting is truthy |
| SharedLib.CfgFaceidcheck | classes/shared_lib.php:60-62 | 0 or 1, 1 iff the setting is truthy |
| SharedLib.SpDivClasses | classes/shared_lib.php:74-80 | a text of main classes becomes its space-separated pieces, followed by the add-classes as one joined item when they are non-empty; as written, an array of main classes is dropped |
| SharedLib.SpDivOfOneClass | classes/shared_lib.php:74-80 | a single main class gives that class and the add-classes |
| SharedLib.DRowCol | classes/shared_lib.php:104-134 | the column div sits inside the row div, each with its own class first |
| QuizRule.TrimTrailingSlashes | rule.php:44-54 | a prefix of the path without a trailing `/`, only slashes cut |
| QuizRule.Basename | rule.php:44-54 | the base name contains no `/` |
| QuizRule.BasenameOfName | rule.php:44-54 | a bare file name is its own base name |
| QuizRule.BasenameOfPath | rule.php:44-54 | the base name of `dir/name` is `name` |
| QuizRule.IsPreflightCheckRequired | rule.php:44-54 | always on an insecure page; otherwise iff the script's base name is `view.php` |
| QuizRule.AddError | rule.php:231-240 | sets the error when the condition holds and keeps every other error |
| QuizRule.ValidatePreflightCheck | rule.php:231-240 | a secure error iff insecure, an agreement error iff the box is empty; incoming errors are never removed |
| QuizRule.Make | rule.php:253-258 | no rule iff `proctoringrequired` is empty |
| QuizRule.DeleteSettings | rule.php:306-309 | removes exactly the quiz's rows and keeps the others |
| QuizRule.DeleteSettingsIdempotent | rule.php:306-309 | deleting twice is deleting once |
| QuizRule.SaveSettings | rule.php:285-297 | no requirement deletes the rows; otherwise a row is added only when none exists |
| QuizRule.SaveSettingsOneRow | rule.php:285-297 | saving a required quiz without a row leaves exactly one row |
| QuizRule.SaveSettingsIdempotent | rule.php:285-297 | saving twice is saving once |
| SettingsHelper.NameSplit | classes/addtional_settings_helper.php:48-67 | the first name never contains a space |
| SettingsHelper.NameSplitWords | classes/addtional_settings_helper.php:48-67 | one word is used as both names; `first last` splits into the two |
| SettingsHelper.NameClauses | classes/addtional_settings_helper.php:48-67 | no username gives no clauses; otherwise one first-name and one last-name clause |
| SettingsHelper.FilterClauses | classes/addtional_settings_helper.php:69-112 | no clause iff the filter is empty; otherwise one, mirrored in the second list when a username is given |
| SettingsHelper.SearchClausesShape | classes/addtional_settings_helper.php:48-112 | one clause per filled filter; the second list is non-empty iff a username is given |
| SettingsHelper.SearchSecondMirrorsFirst | classes/addtional_settings_helper.php:48-112 | the second list uses the last name and otherwise repeats the first list's columns |
| SettingsHelper.SearchParamsMatchPlaceholders | classes/addtional_settings_helper.php:48-112 | every placeholder has exactly one parameter |
| SettingsHelper.WhereClause | classes/addtional_settings_helper.php:117-125 | `(A) OR (B)` when the second list is non-empty, `(A)` otherwise, none without clauses |
| SettingsHelper.Search | classes/addtional_settings_helper.php:37-153 | nothing is searched iff all four filters are empty; otherwise the where clause and parameters of the filters |
| SettingsHelper.FileName | classes/addtional_settings_helper.php:236-238 | the file name contains no `/` |
| SettingsHelper.FileNameOfUrl | classes/addtional_settings_helper.php:236-238 | the file name of `dir/name` is `name` |
| SettingsHelper.DeletePictures | classes/addtional_settings_helper.php:262-280 | removes exactly the stored files of that picture |
| SettingsHelper.SelectedLogs | classes/addtional_settings_helper.php:229-233 | exactly the reports whose id equals the number of an integer item of the list |
| SettingsHelper.SelectedByText | classes/addtional_settings_helper.php:229-233 | an id written as PHP prints it selects its row |
| SettingsHelper.SelectedWithLeadingZeros | classes/addtional_settings_helper.php:229-233 | the comparison is numeric: "007" selects id 7 |
| SettingsHelper.DeleteEachLog | classes/addtional_settings_helper.php:236-251 | removes each selected report, its warnings and its picture, nothing else |
| SettingsHelper.DeleteLogs | classes/addtional_settings_helper.php:227-254 | reports, warnings and pictures survive iff not tied to a selected id |
| SettingsHelper.DeleteLogsNothingSelected | classes/addtional_settings_helper.php:227-254 | when no report is selected, no report, warning or file is deleted |
| SettingsHelper.SelectedScreenshots | classes/addtional_settings_helper.php:311-323 | exactly the screenshots whose id equals the number of an integer item of the list |
| SettingsHelper.DeleteEachScreenshot | classes/addtional_settings_helper.php:319-332 | removes each selected screenshot and its file, nothing else |
| SettingsHelper.DeleteSsLogs | classes/addtional_settings_helper.php:309-335 | screenshots and their files survive iff not selected |
| FaceMatch.TruncToInt | lib.php:70-78 | the integer cast truncates toward zero |
| FaceMatch.CheckSimilarityAws | lib.php:88-117 | an exception from the client becomes the empty match list; otherwise the list returned |
| FaceMatch.AwsVerdict | lib.php:141-151 | a match iff the list is non-empty and its first element has a similarity, which is then the score; otherwise 0 and a warning |
| FaceMatch.AwsThrewFailsClosed | lib.php:101-151 | a client exception scores 0 with a warning |
| FaceMatch.BsVerdict | lib.php:159-169 | the score is 100 or 0, with a warning exactly when 0 |
| FaceMatch.BsMatchIff | lib.php:159-169 | 100 iff the response is an array with `process` set and `facematched` loosely equal to "True", which only "True" and true are |
| FaceMatch.BsNonArrayFailsClosed | lib.php:157-169 | a response that does not decode to an array scores 0 with a warning |
| FaceMatch.UpdateMatchResult | lib.php:70-78 | an existing report gets flag 2 and the truncated score; a missing report changes nothing |
| FaceMatch.LogFmWarning | lib.php:564-583 | a warning for the report's triple is inserted only when the report exists and none exists yet; warnings stay unique |
| FaceMatch.LogFmWarningIdempotent | lib.php:564-583 | logging the same warning twice is logging it once |
| FaceMatch.LogAwsApiCall | lib.php:506-514 | appends one audit row with the report id and response, nothing else |
| FaceMatch.DeleteTask | lib.php:154 | removes exactly that task |
| FaceMatch.AwsScore | lib.php:134-152 | one audit row, the report scored with flag 2, a warning only on failure |
| FaceMatch.BsScore | lib.php:157-170 | no audit row, the report scored with flag 2, a warning only on failure |
| FaceMatch.Step | lib.php:126-175 | an unknown method changes nothing; otherwise the task is deleted, its report scored and only AWS audits |
| FaceMatch.AuditRows | lib.php:134-138 | one audit row per task, in order, with the client's answer |
| FaceMatch.UnknownMethodChangesNothing | lib.php:173-175 | an unknown method leaves the whole database unchanged |
| FaceMatch.BatchDeletesItsTasks | lib.php:122-177 | a known method deletes exactly the batch's tasks |
| FaceMatch.BatchAuditRows | lib.php:132-172 | AWS appends one audit row per task; BS appends none |
| FaceMatch.BatchKeepsReportIds | lib.php:122-177 | no report is created or removed |
| FaceMatch.BatchScoresItsReports | lib.php:152-170 | every existing report of the batch ends scored with flag 2 |
| FaceMatch.BatchLeavesOtherReports | lib.php:122-177 | reports outside the batch are unchanged |
| FaceMatch.BatchKeepsWarningsUnique | lib.php:564-583 | the batch keeps one warning per triple |
| FaceMatch.ExecuteFmTask | lib.php:122-177 | the loop computes the batch fold; at most five tasks; an unknown method changes nothing; a known one removes exactly the batch's tasks |
| FaceMatch.CheckNumber | lib.php:217-221 | an empty config gives the default of 5; a config of digits, optionally after `-`, gives the number it denotes; a config starting with anything but a sign or a digit gives 0 (so every candidate is sampled) |
| FaceMatch.CheckNumberOfInt | lib.php:217-221 | a configured integer is read back exactly |
| FaceMatch.MarkAttempted | lib.php:214 | every report of the triple gets flag 1; others unchanged |
| FaceMatch.TasksFor | lib.php:244-256 | one task per sampled row with a non-empty snapshot, targeting that snapshot against the profile picture |
| FaceMatch.InsertTasks | lib.php:244-256 | new tasks get fresh ids and every old task is kept |
| FaceMatch.LogSpecificQuiz | lib.php:205-258 | marks the triple attempted and adds only tasks for sampled non-empty snapshots, keeping old tasks |
| FaceMatch.LogSpecificQuizQueuesSample | lib.php:217-256 | a positive limit queues at most that many tasks; 0 or below queues every candidate |
| FaceMatch.LogSpecificQuizWithoutPicture | lib.php:208-212 | no profile picture queues nothing |
| FaceMatch.MarkNew | lib.php:429 | only the triple's reports with flag 0 move to flag 1 |
| FaceMatch.AwsAnalyzeSpecificImage | lib.php:412-451 | one audit row and the report scored with flag 2; the other new reports of its triple are queued (flag 1); reports of other triples unchanged; a warning for the triple exactly when the answer carries no similarity |
| FaceMatch.BsAnalyzeSpecificImage | lib.php:459-497 | the report scored 100 or 0 with flag 2, no audit row; the other new reports of its triple are queued (flag 1); reports of other triples unchanged; a warning for the triple exactly on failure |
| FaceMatch.AnalyzeLeavesNothingNew | lib.php:412-497 | after either analysis no report of the triple is left new |

## Left out

- Floating point: a similarity is a Dafny `real`, and the `(int)` cast is `FaceMatch.TruncToInt`. Float formatting and precision are not modelled.
- JSON: the decoded BS response is a PHP value given as input. The AWS client's response is kept as its match list, not as JSON text.
- The network and the backends: the Rekognition client, curl and the temporary image files in `check_similarity_bs` are inputs. They are not modelled.
- `aws_analyze_specific_quiz`, `bs_analyze_specific_quiz` and `log_facematch_task`: they loop over whole quizzes and courses through database queries that are not part of this model.
- The producer's SQL text and `ORDER BY RAND()`: the sample of report ids is a parameter, constrained by `FaceMatch.Sampled`.
- FaceMatch.LogSpecificQuiz: returns nothing when the user has no picture. The source would call `__toString` on a string there, which is a fatal error.
- Php.LooseEq: PHP 8 `==` over the model's values. An object never equals a scalar here; PHP would convert it with a warning. Float text is not numeric (see below).
- Util.GetId: numeric text is integer notation only. "1.5" or " 7" give 0 here, where PHP's `is_numeric` and `(int)` give 1 and 7, because floats and whitespace are not modelled.
- Util.Str2Arr and Util.Str2ArrAsWritten: a non-empty text with an empty separator is excluded by the requires, because `explode` raises a ValueError there.
- SettingsHelper.SelectedLogs: an item with whitespace or non-integer text selects nothing. Databases differ on such an `IN` item (an error, or a cast to 0).
- SettingsHelper.SelectedScreenshots: the same reading of the id list as `SelectedLogs`.
- SettingsHelper.DeleteLogs: deletes by `SelectedLogs`, with the same reading of the id list.
- SettingsHelper.DeleteSsLogs: deletes by `SelectedScreenshots`, with the same reading of the id list.
- FaceMatch.CheckNumber: whitespace and exponent forms of the `(int)` cast are not modelled.
- The `echo` of the snapshot URL and the other messages of `lib.php`: page output is not modelled.
- Whitespace rules and leading-digit parsing of PHP integer casts: modelled for plain decimal text only.
- `g_get_clone`: object cloning. Objects and string offsets inside the global store are not modelled as containers.
- HTML: `_sp_div` and `d_row_col` produce a tree of classes, not markup. Attributes are not modelled.
- `is_secure` and `get_topmost_script` read server globals; their results are parameters.
- Moodle lookups: capabilities, translations, `get_in_or_equal`, modinfo, availability, enrolment, the string manager, and per-user visibility are oracle parameters. So is the rest of `has_user_access_course` after its early exits.
- `sql_like` rendering is a parameter. `search` returns its where clause and parameters; the SELECT text and the query run are not modelled.
- File storage: `deletefile` is modelled as removing the matching file rows.
- PdUtil.Strings2Menu: a value that cannot be an array key is skipped. The source would raise an illegal-offset error.
- Php.FillKey: an object among the listed keys gives no key. PHP converts it by `__toString`, or raises an Error when it has none; objects carry no `__toString` in this model.
- PdUtil.Contribution: for a list of value names it states only that the record has the key property. The joined text is not stated.
- Util.TimeDiffToStrMax: PHP divides in floating point and floors the quotient. The model divides integers exactly, which agrees for every difference below 2^53 seconds.
- Concurrency: the worker has no lease step. One runner is modelled.
- Date, timezone and memory helpers of `util.php`, `grade_val`, `output.php`, the constants and traits, `db/upgrade.php`, `bulkdelete.php` and the browser script: outside this model.

## Findings

| source | as written | input that shows it | evidently intended | confidence | as-written member | corrected member |
|---|---|---|---|---|---|---|
| classes/shared/util.php:176-196 | an array passed as `$str` falls into the branch that reports a debugging message and gives `[]` | `str2arr(['a'])` returns `[]` | the documented contract: an array is returned as it is | not executed | Util.Str2ArrAsWritten, Util.Str2ArrAsWrittenDropsArray | Util.Str2Arr |
