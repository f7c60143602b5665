# rpc-maas check documentation extractor, modelled in Dafny

The rpc-maas documentation build reads the monitoring check templates and documents them. For every check it produces the check's label and a table of details:

- the configuration variables each alarm's criteria use, with their default values;
- the check-wide variables, gathered under `_check_variables`;
- each alarm's criteria as a list of status/condition/message records, under `_criteria`.

This project models that extractor (`doc/utils/maas_checks_util.py`) and proves what it promises. One module covers each part:

| module | file | models |
|---|---|---|
| `Wrappers` | wrappers.dfy | `Option` and `Result` |
| `PyDict` | pydict.dfy | an insertion-ordered Python `dict` as a list of key/value pairs: assignment, `pop` |
| `Criteria` | criteria.dfy | `CRITERIA` and `_get_criteria` |
| `RemappingLoader` | remapping_loader.dfy | `RemappingLoader.construct_mapping` over a YAML node tree |
| `SilentUndefined` | silent_undefined.dfy | the undefined-variable placeholder |
| `Defaults` | defaults.dfy | `_get_defaults` and `_get_globals` |
| `CheckDetails` | check_details.dfy | `_get_check_details` |
| `Checks` | checks.dfy | the `check_details` driver |

`Criteria` models the `CRITERIA` regular expression as an explicit scanner: the leftmost parenthesised clause that nests at most one level deep. `_get_criteria` is the line-by-line state machine that pairs each condition with the status clause after it.

The loops of the source are methods proved against specification functions:
- `GetCriteria` against `ParseCriteria`;
- `ConstructMapping` against `MappingOf`;
- `GetDefaults` against `Defaults`;
- `GetGlobals` against `Globals`;
- `GetCheckDetails` against `Resolve`;
- `AllCheckDetails` against `Run`.

The configuration dictionary is shared by every check and updated in place, so it is a class, `ConfigVariables`. `GetCheckDetails` modifies it.

Parameters stand in for the calls into other libraries:
- `Jinja.undeclared` is the Jinja parse followed by `find_undeclared_variables`; it gives `None` on a syntax error.
- `Jinja.render` renders an alarm's criteria; it gives `None` when rendering raises.
- `Templates.load` renders a check template with the globals and loads it with `RemappingLoader`.
- `Templates.moduleLabel` is `template.module.label`; it gives `None` on `AttributeError`.
- `valueText` is Python's `str` of a non-scalar node's value list.

Some behaviours of the code are worth noting. The model follows the code in each:
- A recovered YAML key keeps its double quotes. A bare `{{ name }}` key becomes the string `"{{ name }}"`, quotes included (`maas_checks_util.py:82`).
- `__getitem__` and `__getattr__` of the undefined placeholder give the bare variable name, not `{{ name }}` (`:35-40`).
- A status clause without a comma gets `content[:-1]` as its status. For example, `(OK)` documents status `O` and an empty message (`:275-282`).
- The `file`/`url` skip applies to every key, so an alarm named `file` or `url` is skipped too (`:200`), although the comment at `:198` speaks only of details.
- An alarm whose name is also a check-wide detail key is merged into `_check_variables` (`:230-231`).
- A non-mapping node makes `construct_mapping` raise. The name `ConstructorError` is not imported, so the error actually raised is a `NameError` (`:69`). The model records only that construction fails (`NotAMapping`).

## Model

| member | source | states |
|---|---|---|
| PyDict.Assign | doc/utils/maas_checks_util.py:236-239 | `d[k] = v`: the keys become the old keys plus `k`; `k` maps to `v`; every other key keeps its value |
| PyDict.AssignInPlace | doc/utils/maas_checks_util.py:236-239 | assignment keeps the order of keys: a new key is appended, and an existing key keeps its position with only its value changed |
| PyDict.Remove | doc/utils/maas_checks_util.py:193-194 | `pop(k)`: the keys become the old keys minus `k`; the others keep their values |
| PyDict.RemoveAbsent | doc/utils/maas_checks_util.py:193-194 | removing an absent key leaves the dict unchanged, which is why `pop` is guarded |
| Criteria.Find | doc/utils/maas_checks_util.py:275 | `str.find` gives -1 exactly when the character is absent; otherwise it gives an index holding that character |
| Criteria.FindIsFirst | doc/utils/maas_checks_util.py:275 | the index `find` gives is the first occurrence |
| Criteria.LStripSpec | doc/utils/maas_checks_util.py:280 | the left half of `strip()` removes exactly a maximal leading whitespace run |
| Criteria.RStripSpec | doc/utils/maas_checks_util.py:280 | the right half of `strip()` removes exactly a maximal trailing whitespace run |
| Criteria.Split | doc/utils/maas_checks_util.py:256 | `split("\n")` always yields at least one line |
| Criteria.JoinSplit | doc/utils/maas_checks_util.py:256 | joining the split lines with newlines gives back the text, and no line contains a newline |
| Criteria.SplitJoin | doc/utils/maas_checks_util.py:256 | splitting newline-free lines joined by newlines gives back those lines |
| Criteria.ScanFromIff | doc/utils/maas_checks_util.py:22 | the scanner closes a clause at `e` exactly when `e` is the first return to depth zero and depth stays within one level of nesting |
| Criteria.MatchAtIff | doc/utils/maas_checks_util.py:22 | a match at `i` ends at `e` exactly when `s[i..e]` is a parenthesised clause nested at most one level deep, which is the language of `CRITERIA` |
| Criteria.SearchLeftmost | doc/utils/maas_checks_util.py:22 | `search` finds the leftmost clause; when it finds none, the line holds no clause at all |
| Criteria.ClauseSpec | doc/utils/maas_checks_util.py:264-268 | a line yields a clause exactly when some part of it is in the language of `CRITERIA`; the clause is the leftmost such part without its outer parentheses |
| Criteria.ClauseOfGroup | doc/utils/maas_checks_util.py:264-268 | a line that is one parenthesised group without inner parentheses yields that group's content |
| Criteria.StatusOf | doc/utils/maas_checks_util.py:275-276 | with a comma, the status is the text before the first comma; without one, it is the content minus its last character (`find` gives -1) |
| Criteria.MessageOf | doc/utils/maas_checks_util.py:278-282 | with a comma, the message is the stripped text after the status and its comma, without its ends; without one, it is the whole stripped content without its ends |
| Criteria.StatusLinesFrom | doc/utils/maas_checks_util.py:263-269 | the lines whose first clause starts with a status token: in range, strictly increasing, and every such line included |
| Criteria.ParseLinesFrom | doc/utils/maas_checks_util.py:261-288 | the state machine from any line on emits one record per status line, in order, each built from the condition pending before it |
| Criteria.ParseCriteriaRecords | doc/utils/maas_checks_util.py:256-269 | `_get_criteria` yields exactly one record per line whose first clause starts with `CRITICAL`, `WARNING` or `OK`, in line order, and nothing for other lines |
| Criteria.PendingIsNearestCondition | doc/utils/maas_checks_util.py:286-288 | a status clause's condition is the nearest earlier non-status clause with no status clause in between, and every such clause is the one picked |
| Criteria.DefaultWithoutCondition | doc/utils/maas_checks_util.py:261 | a status clause with no pending condition gets the condition `default` |
| Criteria.StatusClauseRoundTrip | doc/utils/maas_checks_util.py:275-282 | for `status,` + spaces + quoted message + spaces, with no comma in the status, the record's status and message are exactly the two parts |
| Criteria.StatusWithoutComma | doc/utils/maas_checks_util.py:275-282 | a status clause `(OK)`, which has no comma, documents status `O` and an empty message |
| Criteria.StatusTextParts | doc/utils/maas_checks_util.py:269-282 | `STATUS, "message"` is a status clause whose parts read back as the status and the message |
| Criteria.GetCriteria | doc/utils/maas_checks_util.py:252-288 | the loop over lines yields exactly the records of the specification `ParseCriteria` |
| Criteria.ConditionThenTwoStatuses | doc/utils/maas_checks_util.py:308-318 | a condition clause followed by an `OK` clause and a `CRITICAL` clause gives the `OK` record that condition and the `CRITICAL` record `default` |
| RemappingLoader.MappingOf | doc/utils/maas_checks_util.py:53-89 | whatever `construct_mapping` returns is a dict |
| RemappingLoader.ConstructMapping | doc/utils/maas_checks_util.py:53-89 | the loop over key/value nodes returns exactly the mapping, or the error, of the specification |
| RemappingLoader.MappingKeys | doc/utils/maas_checks_util.py:73-89 | the dict's keys are exactly what the key nodes stand for; an unhashable mapping key stands for `"{{ first key }}"`; the last pair with a key wins |
| RemappingLoader.PairsFromTrace | doc/utils/maas_checks_util.py:73-87 | a loop that succeeds assigns, pair by pair and in order, the key each key node stands for and the value its value node constructs to |
| RemappingLoader.AssignAllKeys | doc/utils/maas_checks_util.py:72-89 | after `mapping[key] = value` for every pair, the dict's keys are exactly the keys assigned |
| RemappingLoader.AssignAllValues | doc/utils/maas_checks_util.py:87 | each key holds the value of the last pair assigned to it |
| RemappingLoader.NotAMappingFails | doc/utils/maas_checks_util.py:68-71 | construction fails for want of a mapping exactly when the node is not a mapping node |
| RemappingLoader.BareReplacementField | doc/utils/maas_checks_util.py:77-84 | a bare `{{ name }}` read as a flow-mapping key becomes the string key `"{{ name }}"` |
| RemappingLoader.RecoveredKey | doc/utils/maas_checks_util.py:77-84 | an unhashable key is recovered exactly when its node is a non-empty mapping, as the quoted placeholder of its first key; an empty collection raises `IndexError`, a non-empty sequence `TypeError` |
| RemappingLoader.KeyForIsKeyName | doc/utils/maas_checks_util.py:75-84 | for a key node that constructs, the loop stores under the key the node stands for, and fails exactly when it stands for none |
| SilentUndefined.StrRoundTrip | doc/utils/maas_checks_util.py:27-33 | a string reads back as a name exactly when it is that name's replacement field `{{ name }}` |
| SilentUndefined.Str | doc/utils/maas_checks_util.py:27-33 | `str` of an undefined variable is a replacement field that reads back as its name |
| SilentUndefined.TrueDiv | doc/utils/maas_checks_util.py:47-48 | dividing an undefined variable by anything gives the same replacement field as `str` |
| SilentUndefined.GetItem | doc/utils/maas_checks_util.py:35-40 | item access gives the name the replacement field reads back as, never the field itself |
| SilentUndefined.GetAttr | doc/utils/maas_checks_util.py:35-40 | attribute access gives the name the replacement field reads back as, never the field itself |
| Defaults.GetDefaults | doc/utils/maas_checks_util.py:92-110 | the update loop over the variable files gives the specification's merge plus the faked swift key |
| Defaults.MergedLastWriteWins | doc/utils/maas_checks_util.py:102-104 | a merged key is one some file sets, and it holds the value from the last file that sets it |
| Defaults.DefaultsContents | doc/utils/maas_checks_util.py:99-110 | the defaults hold exactly the keys some file sets plus `maas_swift_access_url_key`; last write wins; the injected key is faked with its own name |
| Defaults.GetGlobals | doc/utils/maas_checks_util.py:113-160 | the loop copying the process lists gives the specification's globals, or the first process list missing from the configuration |
| Defaults.FixedGlobalsContents | doc/utils/maas_checks_util.py:121-139 | each placeholder name is set to itself, and no process list and no `item` is among the fixed globals |
| Defaults.GlobalsExist | doc/utils/maas_checks_util.py:147-153 | the globals exist exactly when all six process lists are configured; otherwise the error names a missing one |
| Defaults.GlobalsContents | doc/utils/maas_checks_util.py:121-160 | the globals hold the six process lists as configured, the fake `item`, and every fixed global unchanged (placeholders set to themselves, empty exclusion patterns, the fake device and OSD lists); nothing else is copied from the configuration |
| CheckDetails.AlarmCriteria | doc/utils/maas_checks_util.py:184-186 | the comprehension succeeds exactly when every alarm has a `criteria` key, and then maps each alarm, in order, to its `criteria`; otherwise it fails naming an alarm without one |
| CheckDetails.GetCheckDetails | doc/utils/maas_checks_util.py:163-249 | the resolver loop gives the specification's details or error, and leaves the shared configuration as the specification does |
| CheckDetails.ResolveEntry | doc/utils/maas_checks_util.py:197-247 | one turn of the loop, for a key that is not `file` or `url`, gives the specification's step: the updated details or the error, and the configuration that step leaves |
| CheckDetails.DropIgnored | doc/utils/maas_checks_util.py:206-208 | the ignore loop leaves exactly the undeclared names that are not on the ignore list |
| CheckDetails.RedirectNames | doc/utils/maas_checks_util.py:213-221 | the redirection loop gives the names, the error and the configuration of the redirection specification, whose meaning `CheckDetails.RedirectSpec` states |
| CheckDetails.RedirectSpec | doc/utils/maas_checks_util.py:180-221 | redirection succeeds exactly when each redirected threshold's controlling variable is configured; it then swaps the threshold for that variable and binds the threshold to its value, changing nothing else |
| CheckDetails.ResolveOnlyRedirects | doc/utils/maas_checks_util.py:213-221 | resolving a check changes the configuration only by binding `warning_threshold`/`critical_threshold` to the value of their controlling variables, on success and on failure |
| CheckDetails.MissingDefaultsIff | doc/utils/maas_checks_util.py:206-225 | a value fails for want of defaults exactly when a name it leaves undeclared, after ignoring and redirecting, is not configured |
| CheckDetails.ResolveShape | doc/utils/maas_checks_util.py:193-247 | on success the keys are the alarms not skipped and not check-wide details, plus `_check_variables` when not empty; no ignored or redirected name appears; each default is the configured value; `_criteria` appears under exactly the alarm keys |
| CheckDetails.StepStores | doc/utils/maas_checks_util.py:197-225 | a turn that succeeds on a key other than `file`/`url` stores, for each name its value leaves to configure after ignoring and redirecting, the value configured before the call |
| CheckDetails.StepDocuments | doc/utils/maas_checks_util.py:197-247 | after that turn, the alarm's entry (or `_check_variables`, for a check-wide detail with names) holds each of those names with its default |
| CheckDetails.StoreDocuments | doc/utils/maas_checks_util.py:227-247 | the defaults merged under the alarm or `_check_variables` stay there once the alarm's `_criteria` is added, except a name `_criteria` itself |
| CheckDetails.StoreKeeps | doc/utils/maas_checks_util.py:233-247 | merging and adding criteria never drop a name an entry already documents |
| CheckDetails.ResolveDocumentsNames | doc/utils/maas_checks_util.py:163-247 | on success, each alarm not skipped and not a check-wide detail documents every name its criteria leave to configure, with its configured default; `_check_variables` documents every such name of each check-wide detail |
| CheckDetails.StepUntouched | doc/utils/maas_checks_util.py:197-247 | a turn on another key (never `_check_variables`) leaves whether a name has an entry, and that entry, as they were |
| CheckDetails.ResolveFromUntouched | doc/utils/maas_checks_util.py:197-247 | the rest of the loop leaves the entry of a name that none of the remaining keys carries as it was |
| CheckDetails.RedirectRenderConfig | doc/utils/maas_checks_util.py:213-221 | after the redirection, the configuration differs from the one before the call only at redirected names, and each threshold a template mentions holds its controlling variable's value |
| CheckDetails.StoreAlarmEntry | doc/utils/maas_checks_util.py:230-247 | for an alarm with no entry yet, storing gives it exactly its defaults plus `_criteria`, the records of its criteria rendered against the redirected configuration |
| CheckDetails.StepAlarmEntry | doc/utils/maas_checks_util.py:197-247 | the turn of an alarm with no entry yet gives it exactly the configured default of each name its criteria leave to configure, plus its parsed criteria rendered with the thresholds it mentions redirected |
| CheckDetails.ResolveFromAlarm | doc/utils/maas_checks_util.py:197-247 | an alarm whose key no other remaining entry carries ends the loop with exactly that entry |
| CheckDetails.ResolveAlarmEntry | doc/utils/maas_checks_util.py:163-247 | on success, an alarm that occurs once, is not skipped, and is neither a check-wide detail nor `_check_variables` has exactly its own entry: its configurable names with their defaults as configured before the call, and under `_criteria` the records of its criteria rendered with the thresholds it mentions redirected |
| Checks.KeptSpec | doc/utils/maas_checks_util.py:333-340 | exactly the templates other than `checks_base.yaml.j2` and `ceph_rgw_stats.yaml.j2` are processed, each as often as it is found |
| Checks.CheckLabel | doc/utils/maas_checks_util.py:359-362 | the label is the template module's `label` when it has one, otherwise the document's `label` |
| Checks.ResolveTemplates | doc/utils/maas_checks_util.py:333-364 | the loop over the template files gives exactly the checks and error of the driver's specification, against the one shared configuration |
| Checks.AllCheckDetails | doc/utils/maas_checks_util.py:291-364 | the driver yields exactly the specification's checks, resolving the templates in order against one shared configuration, and stops at the first error |
| Checks.RunChecks | doc/utils/maas_checks_util.py:333-364 | one check per kept template, in order, up to the first error; each is labelled by its template module's `label`, or else the document's `label` |

## Left out

- The Jinja parse, `find_undeclared_variables`, criteria rendering, template rendering and `template.module.label` are parameters. They are library calls whose behaviour is taken as given.
- The Ansible filter and test registrations (`:324-331`) are not modelled. They only make more templates renderable.
- PyYAML scanning, parsing and tag resolution are not modelled. Every scalar constructs to a string; YAML integers, floats, booleans and nulls are not distinguished.
- The YAML loading of the variable files is not modelled. The files arrive as already loaded dictionaries.
- A variable file that loads to something other than a mapping is not modelled: `update(None)` raises in Python, and the model has no such input.
- Globbing, file reading and the directory layout are not modelled; the file and template lists are inputs in the order found.
- `_main`'s printing is not modelled. It only formats the results.
- The magnum API plugin is not part of this model. It is a network client with no logic of its own.
- CheckDetails.MissingDefaultsIff: the error carries the whole set of missing names. Python's `KeyError` names only the first one met, in set iteration order, which is unspecified.
- CheckDetails.ResolveShape: the order of names inside one alarm's entry is not modelled (entries are maps). The order of the alarms themselves is kept, as `PyDict.AssignInPlace` states.
- CheckDetails.GetCheckDetails: `_criteria` holds the parsed records, where Python stores a generator that yields them later. Parsing is pure, so the records are the same.
- CheckDetails.GetCheckDetails: documents are reduced to `alarms`, `details` and `label`, and each criteria or detail value is given as the text Jinja parses. Jinja's `parse` applies `str` to its source, so an integer, or the dict `RemappingLoader` builds for a bare `{{ name }}`, is documented through its text. The step from a loaded `RemappingLoader.Value` to that text is not modelled, nor is an alarm whose value is not a mapping (indexing it with `"criteria"` raises).
- Checks.AllCheckDetails: a template that fails to render or load stops the generator with an exception. That failure is folded into the `load` parameter, which always returns a document.
- RemappingLoader.NotAMappingFails: the `NameError` raised for the missing `ConstructorError` import is modelled only as a failure.
