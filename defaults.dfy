/**
  The variables the check templates are resolved against (`_get_defaults`)
  and the globals of the partial-rendering environment (`_get_globals`).
 */
module Defaults {
  import opened Wrappers
  import opened RemappingLoader

  /** A dictionary of variables; the order of its keys plays no part here. */
  type Variables = map<string, Value>

  /** Set during a playbook run by a task, so it is faked with its own name. */
  const SwiftAccessUrlKey: string := "maas_swift_access_url_key"

  // ---------------------------------------------------------------------------
  // _get_defaults
  // ---------------------------------------------------------------------------

  /** The variable files, in the order they are read, merged with `dict.update`. */
  function Merged(files: seq<Variables>): Variables
    decreases |files|
  {
    if files == [] then map[] else Merged(files[..|files| - 1]) + files[|files| - 1]
  }

  /** The defaults: the merged files with the faked swift key injected last. */
  function Defaults(files: seq<Variables>): Variables {
    Merged(files)[SwiftAccessUrlKey := Str(SwiftAccessUrlKey)]
  }

  /** `_get_defaults`, over the already loaded variable files. */
  method GetDefaults(files: seq<Variables>) returns (variables: Variables)
    ensures variables == Defaults(files)
  {
    variables := map[];
    for i := 0 to |files|
      invariant variables == Merged(files[..i])
    {
      assert files[..i + 1][..i] == files[..i];
      variables := variables + files[i];
    }
    assert files[..|files|] == files;
    variables := variables[SwiftAccessUrlKey := Str(SwiftAccessUrlKey)];
  }

  /** File `j` is the last file that sets `k`. */
  predicate LastToSet(files: seq<Variables>, j: nat, k: string)
    requires j < |files|
  {
    k in files[j] && forall j' :: j < j' < |files| ==> k !in files[j']
  }

  /** A merged key is set by some file, and holds the value of the last file that sets it. */
  lemma {:induction false} MergedLastWriteWins(files: seq<Variables>, k: string)
    ensures k in Merged(files) <==> exists j :: 0 <= j < |files| && k in files[j]
    ensures forall j :: 0 <= j < |files| && LastToSet(files, j, k) ==> Merged(files)[k] == files[j][k]
    decreases |files|
  {
    if files != [] {
      var init := files[..|files| - 1];
      MergedLastWriteWins(init, k);
      if exists j :: 0 <= j < |init| && k in init[j] {
        var j :| 0 <= j < |init| && k in init[j];
        assert k in files[j];
      }
      forall j | 0 <= j < |files| && LastToSet(files, j, k)
        ensures Merged(files)[k] == files[j][k]
      {
        if j < |files| - 1 {
          assert LastToSet(init, j, k);
        }
      }
    }
  }

  /**
    The defaults hold every key some file sets, each with the value of the
    last file that sets it, plus the faked swift key, which no file overrides.
   */
  lemma DefaultsContents(files: seq<Variables>, k: string)
    ensures k in Defaults(files) <==> k == SwiftAccessUrlKey || exists j :: 0 <= j < |files| && k in files[j]
    ensures Defaults(files)[SwiftAccessUrlKey] == Str(SwiftAccessUrlKey)
    ensures k != SwiftAccessUrlKey ==>
      forall j :: 0 <= j < |files| && LastToSet(files, j, k) ==> Defaults(files)[k] == files[j][k]
  {
    MergedLastWriteWins(files, k);
  }

  // ---------------------------------------------------------------------------
  // _get_globals
  // ---------------------------------------------------------------------------

  /** Names set to themselves as placeholders. */
  const PlaceholderNames: seq<string> := [
    "inventory_hostname", "ansible_hostname", "ansible_host", "ansible_nodename",
    "ansible_fqdn", "container_name", "maas_plugin_dir", "maas_lb_name"]

  /** The process-name lists copied from the configuration, in the order they are copied. */
  const ProcessListNames: seq<string> := [
    "elasticsearch_process_names", "filebeat_process_names", "rsyslogd_process_names",
    "maas_swift_account_process_names", "maas_swift_container_process_names",
    "maas_swift_object_process_names"]

  const FakeItem: Value :=
    Map([("label", Str("label")), ("key", Str("key")), ("filesystem", Str("<filesystem>"))])

  /** The globals set before the process lists are copied. */
  function FixedGlobals(): Variables {
    (map k | k in PlaceholderNames :: Str(k))
      ["maas_excluded_checks_regex" := Str("")]
      ["maas_excluded_alarms_regex" := Str("")]
      ["maas_disk_util_devices" := List([Str("device")])]
      ["ceph_osd_host" := Map([("osd_ids", List([Str("id")]))])]
  }

  /** The first of `names[i..]` that the configuration lacks. */
  function FirstMissingFrom(names: seq<string>, config: Variables, i: nat): Option<string>
    requires i <= |names|
    decreases |names| - i
  {
    if i == |names| then None
    else if names[i] !in config then Some(names[i])
    else FirstMissingFrom(names, config, i + 1)
  }

  /** The first `i` process lists as copied from the configuration. */
  function CopiedLists(config: Variables, i: nat): (m: Variables)
    requires i <= |ProcessListNames|
    requires forall k :: 0 <= k < i ==> ProcessListNames[k] in config
  {
    if i == 0 then map[]
    else CopiedLists(config, i - 1)[ProcessListNames[i - 1] := config[ProcessListNames[i - 1]]]
  }

  lemma {:induction false} FirstMissingSpec(names: seq<string>, config: Variables, i: nat)
    requires i <= |names|
    ensures FirstMissingFrom(names, config, i).None? <==> forall k :: i <= k < |names| ==> names[k] in config
    ensures FirstMissingFrom(names, config, i).Some? ==>
      exists k :: i <= k < |names| && names[k] == FirstMissingFrom(names, config, i).value && names[k] !in config &&
        forall k' :: i <= k' < k ==> names[k'] in config
    decreases |names| - i
  {
    if i < |names| && names[i] in config {
      FirstMissingSpec(names, config, i + 1);
    }
  }

  /**
    The globals of the partial-rendering environment (`_get_globals`), or the
    first process list the configuration lacks (the `KeyError`).
   */
  function Globals(config: Variables): Result<Variables, string> {
    match FirstMissingFrom(ProcessListNames, config, 0)
    case Some(name) => Failure(name)
    case None =>
      FirstMissingSpec(ProcessListNames, config, 0);
      Success((FixedGlobals() + CopiedLists(config, |ProcessListNames|))["item" := FakeItem])
  }

  /** `_get_globals(config_variables)`. */
  method GetGlobals(config: Variables) returns (r: Result<Variables, string>)
    ensures r == Globals(config)
  {
    var globals := FixedGlobals();
    for i := 0 to |ProcessListNames|
      invariant FirstMissingFrom(ProcessListNames, config, i) == FirstMissingFrom(ProcessListNames, config, 0)
      invariant forall k :: 0 <= k < i ==> ProcessListNames[k] in config
      invariant globals == FixedGlobals() + CopiedLists(config, i)
    {
      var name := ProcessListNames[i];
      if name !in config {
        return Failure(name);
      }
      UpdateUnion(FixedGlobals(), CopiedLists(config, i), name, config[name]);
      globals := globals[name := config[name]];
    }
    globals := globals["item" := FakeItem];
    return Success(globals);
  }

  lemma UpdateUnion(a: Variables, b: Variables, k: string, v: Value)
    ensures (a + b)[k := v] == a + b[k := v]
  {
  }

  /** The fixed globals set each placeholder name to itself and hold none of the process lists or `item`. */
  lemma FixedGlobalsContents()
    ensures forall k :: k in PlaceholderNames ==> k in FixedGlobals() && FixedGlobals()[k] == Str(k)
    ensures forall n :: n in ProcessListNames ==> n !in FixedGlobals()
    ensures "item" !in FixedGlobals()
  {
    PlaceholdersSetToThemselves();
    ProcessListsNotFixed();
    ItemNotFixed();
  }

  lemma PlaceholdersSetToThemselves()
    ensures forall k :: k in PlaceholderNames ==> k in FixedGlobals() && FixedGlobals()[k] == Str(k)
  {
    var placeholders := map k | k in PlaceholderNames :: Str(k);
    forall k | k in PlaceholderNames ensures k in FixedGlobals() && FixedGlobals()[k] == Str(k) {
      assert k in placeholders;
    }
  }

  lemma ProcessListsNotFixed()
    ensures forall n :: n in ProcessListNames ==> n !in FixedGlobals()
  {
  }

  lemma ItemNotFixed()
    ensures "item" !in FixedGlobals()
  {
  }

  lemma ItemNotProcessList()
    ensures "item" !in ProcessListNames
  {
  }

  /** The globals exist exactly when the configuration has every process list; the error names a missing one. */
  lemma GlobalsExist(config: Variables)
    ensures Globals(config).Success? <==> forall n :: n in ProcessListNames ==> n in config
    ensures Globals(config).Failure? ==> Globals(config).error in ProcessListNames && Globals(config).error !in config
  {
    FirstMissingSpec(ProcessListNames, config, 0);
  }

  /**
    The globals hold the six process lists as configured, the fake `item`,
    and every fixed global (the placeholders, the empty exclusion patterns,
    the fake device and OSD lists) unchanged; nothing else is copied from
    the configuration.
   */
  lemma GlobalsContents(config: Variables)
    requires Globals(config).Success?
    ensures var g := Globals(config).value;
      && (forall n :: n in ProcessListNames ==> n in g && g[n] == config[n])
      && "item" in g && g["item"] == FakeItem
      && (forall k :: k in g ==> k in ProcessListNames || k == "item" || (k in FixedGlobals() && g[k] == FixedGlobals()[k]))
      && (forall k :: k in FixedGlobals() ==> k in g && g[k] == FixedGlobals()[k])
  {
    FirstMissingSpec(ProcessListNames, config, 0);
    var copied := CopiedLists(config, |ProcessListNames|);
    CopiedListsValues(config, |ProcessListNames|);
    ItemNotProcessList();
    ProcessListsNotFixed();
    ItemNotFixed();
    var g := Globals(config).value;
    assert g == (FixedGlobals() + copied)["item" := FakeItem];
    forall n | n in ProcessListNames ensures n in g && g[n] == config[n] {
      var k :| 0 <= k < |ProcessListNames| && ProcessListNames[k] == n;
    }
  }

  lemma {:induction false} CopiedListsValues(config: Variables, i: nat)
    requires i <= |ProcessListNames|
    requires forall k :: 0 <= k < i ==> ProcessListNames[k] in config
    ensures forall k :: 0 <= k < i ==>
      ProcessListNames[k] in CopiedLists(config, i) && CopiedLists(config, i)[ProcessListNames[k]] == config[ProcessListNames[k]]
    ensures forall key :: key in CopiedLists(config, i) ==> key in ProcessListNames
  {
    if i > 0 {
      CopiedListsValues(config, i - 1);
    }
  }
}
