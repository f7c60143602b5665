/**
  The undeclared-variable resolver (`_get_check_details`): for every alarm
  criterion and every check-wide detail of a loaded check template, the
  variables it mentions but does not define are looked up in the shared
  configuration; ignored names are dropped, filesystem thresholds are
  redirected to the variables that really control them, check-wide details
  are gathered under `_check_variables`, and each alarm also receives its
  parsed criteria under `_criteria`.
 */
module CheckDetails {
  import opened Wrappers
  import opened PyDict
  import opened RemappingLoader
  import opened Defaults
  import Criteria

  /** What a details entry maps a name to: a default value, or (under `_criteria`) the parsed criteria. */
  datatype Entry = Default(value: Value) | Parsed(records: seq<Criteria.Record>)

  /** The result: alarm names (and `_check_variables`) to their entries, in insertion order. */
  type Details = Dict<map<string, Entry>>

  /** A loaded check template, reduced to the parts that are read: `alarms`, `details` and `label`. */
  datatype Document = Document(alarms: Dict<Dict<string>>, details: Dict<string>, checkLabel: Option<string>)

  /** The two template-library calls, taken as given. */
  datatype Jinja = Jinja(
    undeclared: string -> Option<set<string>>,     // parse, then find_undeclared_variables; None on a syntax error
    render: (string, Variables) -> Option<string>) // jinja2.Template(value).render(vars); None when it raises

  datatype ResolveError =
    | MissingCriteria(alarm: string)         // an alarm without a `criteria` key
    | TemplateSyntax(source: string)         // the template library could not parse a value
    | MissingVariables(names: set<string>)   // names with no default in the configuration
    | RenderFailed(alarm: string)            // rendering an alarm's criteria raised

  /** The result of resolving, with the configuration as it is left, whether or not resolving succeeded. */
  datatype Outcome<T> = Done(value: T, config: Variables) | Failed(error: ResolveError, config: Variables)

  /** Names never documented as configurable, in the order they are removed. */
  const IgnoreList: seq<string> := ["maas_alarm_local_consecutive_count", "volume_group", "console_service_name"]
  const IgnoredNames: set<string> := {"maas_alarm_local_consecutive_count", "volume_group", "console_service_name"}

  const WarningSource: string := "warning_threshold"
  const WarningTarget: string := "maas_filesystem_warning_threshold"
  const CriticalSource: string := "critical_threshold"
  const CriticalTarget: string := "maas_filesystem_critical_threshold"

  /** The redirection table, in iteration order: a name and the variable that really controls it. */
  const RedirectTable: seq<(string, string)> := [(WarningSource, WarningTarget), (CriticalSource, CriticalTarget)]
  const RedirectSources: set<string> := {WarningSource, CriticalSource}

  /** Keys skipped wherever they occur. */
  const SkippedKeys: set<string> := {"file", "url"}
  const ArgsKey: string := "args"
  const CheckVariablesKey: string := "_check_variables"
  const CriteriaKey: string := "_criteria"

  /** The configuration variables, one dictionary shared by every check and updated in place. */
  class ConfigVariables {
    var vars: Variables

    constructor(vars: Variables)
      ensures this.vars == vars
    {
      this.vars := vars;
    }
  }

  // ---------------------------------------------------------------------------
  // Specification of one call
  // ---------------------------------------------------------------------------

  /** `{key: value["criteria"] for key, value in alarms.items()}`, or the first alarm without criteria. */
  function AlarmCriteria(alarms: Dict<Dict<string>>): (r: Result<Dict<string>, ResolveError>)
    ensures r.Success? <==> forall i :: 0 <= i < |alarms| ==> "criteria" in Keys(alarms[i].1)
    ensures r.Success? ==> |r.value| == |alarms| && Keys(r.value) == Keys(alarms)
    ensures r.Success? ==> forall i :: 0 <= i < |alarms| ==>
      "criteria" in Keys(alarms[i].1) && r.value[i] == (alarms[i].0, Get(alarms[i].1, "criteria"))
    ensures r.Failure? ==> exists i :: 0 <= i < |alarms| && "criteria" !in Keys(alarms[i].1) && r.error == MissingCriteria(alarms[i].0)
    decreases |alarms|
  {
    if alarms == [] then Success([])
    else if "criteria" !in Keys(alarms[0].1) then Failure(MissingCriteria(alarms[0].0))
    else match AlarmCriteria(alarms[1..])
      case Failure(e) => Failure(e)
      case Success(rest) =>
        var r := [(alarms[0].0, Get(alarms[0].1, "criteria"))] + rest;
        assert r[1..] == rest;
        Success(r)
  }

  /** The redirection loop from table entry `j` on, over the names `u`. */
  function RedirectFrom(u: set<string>, config: Variables, j: nat): Outcome<set<string>>
    requires j <= |RedirectTable|
    decreases |RedirectTable| - j
  {
    if j == |RedirectTable| then Done(u, config)
    else
      var src, dst := RedirectTable[j].0, RedirectTable[j].1;
      if src !in u then RedirectFrom(u, config, j + 1)
      else if dst !in config then Failed(MissingVariables({dst}), config)
      else RedirectFrom(u - {src} + {dst}, config[src := config[dst]], j + 1)
  }

  /** The names that remain once the redirected names are swapped for the variables that control them. */
  function Exposed(u: set<string>): set<string> {
    (u - RedirectSources)
      + (if WarningSource in u then {WarningTarget} else {})
      + (if CriticalSource in u then {CriticalTarget} else {})
  }

  /** What is known of the entries being resolved, fixed for one call. */
  datatype Context = Context(alarmKeys: set<string>, detailKeys: set<string>, jinja: Jinja)

  /** One turn of the loop over the alarm criteria and then the check-wide details. */
  function StepEntry(ctx: Context, key: string, value: string, details: Details, config: Variables): Outcome<Details> {
    if key in SkippedKeys then Done(details, config)
    else match ctx.jinja.undeclared(value)
      case None => Failed(TemplateSyntax(value), config)
      case Some(names) =>
        match RedirectFrom(names - IgnoredNames, config, 0)
        case Failed(e, c) => Failed(e, c)
        case Done(u, c) =>
          if !(u <= c.Keys) then Failed(MissingVariables(u - c.Keys), c)
          else Store(ctx, key, value, details, map k | k in u :: Default(c[k]), c)
  }

  /**
    The rest of the turn: a check-wide detail goes under `_check_variables`
    and is dropped when it has no defaults; the defaults are merged into the
    entry; an alarm's entry also receives its rendered and parsed criteria.
   */
  function Store(ctx: Context, key: string, value: string, details: Details, defaults: map<string, Entry>, c: Variables): Outcome<Details> {
    var target := if key in ctx.detailKeys then CheckVariablesKey else key;
    if key in ctx.detailKeys && defaults == map[] then Done(details, c)
    else
      var merged := Assign(details, target, if target in Keys(details) then Get(details, target) + defaults else defaults);
      if target !in ctx.alarmKeys then Done(merged, c)
      else match ctx.jinja.render(value, c)
        case None => Failed(RenderFailed(target), c)
        case Some(text) =>
          Done(Assign(merged, target, Get(merged, target)[CriteriaKey := Parsed(Criteria.ParseCriteria(text))]), c)
  }

  /** The loop from entry `i` on. */
  function ResolveFrom(ctx: Context, entries: Dict<string>, i: nat, details: Details, config: Variables): Outcome<Details>
    requires i <= |entries|
    decreases |entries| - i
  {
    if i == |entries| then Done(details, config)
    else match StepEntry(ctx, entries[i].0, entries[i].1, details, config)
      case Failed(e, c) => Failed(e, c)
      case Done(d, c) => ResolveFrom(ctx, entries, i + 1, d, c)
  }

  /** The context of a document whose alarms have the given criteria. */
  function ContextOf(doc: Document, alarms: Dict<string>, jinja: Jinja): Context {
    Context(Keys(alarms), Keys(Remove(doc.details, ArgsKey)), jinja)
  }

  /** `_get_check_details(rendered_yaml, config_variables, environment)`, with the configuration it leaves. */
  function Resolve(doc: Document, config: Variables, jinja: Jinja): Outcome<Details> {
    match AlarmCriteria(doc.alarms)
    case Failure(e) => Failed(e, config)
    case Success(alarms) =>
      ResolveFrom(ContextOf(doc, alarms, jinja), alarms + Remove(doc.details, ArgsKey), 0, [], config)
  }

  // ---------------------------------------------------------------------------
  // The method
  // ---------------------------------------------------------------------------

  /** `_get_check_details`: the details of one check; the shared configuration is updated in place. */
  method GetCheckDetails(doc: Document, config: ConfigVariables, jinja: Jinja) returns (r: Result<Details, ResolveError>)
    modifies config
    ensures var o := Resolve(doc, old(config.vars), jinja);
      && config.vars == o.config
      && r == (if o.Done? then Success(o.value) else Failure(o.error))
  {
    var criteria := AlarmCriteria(doc.alarms);
    if criteria.Failure? {
      return Failure(criteria.error);
    }
    var alarms := criteria.value;
    var checkDetails := doc.details;
    if ArgsKey in Keys(checkDetails) {
      checkDetails := Remove(checkDetails, ArgsKey);
    } else {
      RemoveAbsent(checkDetails, ArgsKey);
    }
    ghost var ctx := ContextOf(doc, alarms, jinja);
    var entries := alarms + checkDetails;
    var details: Details := [];
    for i := 0 to |entries|
      invariant ResolveFrom(ctx, entries, i, details, config.vars) == Resolve(doc, old(config.vars), jinja)
    {
      var key, value := entries[i].0, entries[i].1;
      if key in SkippedKeys {
        continue;
      }
      var r := ResolveEntry(alarms, checkDetails, jinja, key, value, details, config);
      if r.Failure? {
        return Failure(r.error);
      }
      details := r.value;
    }
    return Success(details);
  }

  /** One turn of the loop over the entries, for a key that is not skipped. */
  method ResolveEntry(alarms: Dict<string>, checkDetails: Dict<string>, jinja: Jinja, key: string, value: string,
                      details: Details, config: ConfigVariables)
    returns (r: Result<Details, ResolveError>)
    requires key !in SkippedKeys
    modifies config
    ensures var o := StepEntry(Context(Keys(alarms), Keys(checkDetails), jinja), key, value, details, old(config.vars));
      && config.vars == o.config
      && r == (if o.Done? then Success(o.value) else Failure(o.error))
  {
    var parsed := jinja.undeclared(value);
    if parsed.None? {
      return Failure(TemplateSyntax(value));
    }
    var undeclared := DropIgnored(parsed.value);
    var redirected := RedirectNames(undeclared, config);
    if redirected.Failure? {
      return Failure(redirected.error);
    }
    undeclared := redirected.value;
    if !(undeclared <= config.vars.Keys) {
      return Failure(MissingVariables(undeclared - config.vars.Keys));
    }
    var defaults := map k | k in undeclared :: Default(config.vars[k]);
    var target := key;
    if key in Keys(checkDetails) {
      target := CheckVariablesKey;
      if defaults == map[] {
        return Success(details);
      }
    }
    var stored := details;
    if target in Keys(stored) {
      stored := Assign(stored, target, Get(stored, target) + defaults);
    } else {
      stored := Assign(stored, target, defaults);
    }
    if target in Keys(alarms) {
      var rendered := jinja.render(value, config.vars);
      if rendered.None? {
        return Failure(RenderFailed(target));
      }
      var records := Criteria.GetCriteria(rendered.value);
      stored := Assign(stored, target, Get(stored, target)[CriteriaKey := Parsed(records)]);
    }
    return Success(stored);
  }

  /** The loop removing the ignored names, in the order they are listed. */
  method DropIgnored(parsed: set<string>) returns (undeclared: set<string>)
    ensures undeclared == parsed - IgnoredNames
  {
    undeclared := parsed;
    for j := 0 to |IgnoreList|
      invariant forall n :: n in undeclared <==> n in parsed && n !in IgnoreList[..j]
    {
      if IgnoreList[j] in undeclared {
        undeclared := undeclared - {IgnoreList[j]};
      }
    }
    assert IgnoreList[..|IgnoreList|] == IgnoreList;
  }

  /** The redirection loop: each redirected name is swapped for its target, whose value it is also given. */
  method RedirectNames(names: set<string>, config: ConfigVariables) returns (r: Result<set<string>, ResolveError>)
    modifies config
    ensures var o := RedirectFrom(names, old(config.vars), 0);
      && config.vars == o.config
      && r == (if o.Done? then Success(o.value) else Failure(o.error))
  {
    var undeclared := names;
    for j := 0 to |RedirectTable|
      invariant RedirectFrom(undeclared, config.vars, j) == RedirectFrom(names, old(config.vars), 0)
    {
      var src, dst := RedirectTable[j].0, RedirectTable[j].1;
      if src in undeclared {
        undeclared := undeclared - {src} + {dst};
        if dst !in config.vars {
          return Failure(MissingVariables({dst}));
        }
        config.vars := config.vars[src := config.vars[dst]];
      }
    }
    return Success(undeclared);
  }

  // ---------------------------------------------------------------------------
  // Redirection and the configuration
  // ---------------------------------------------------------------------------

  /** The redirection loop after its first turn. */
  lemma RedirectFirstTurn(u: set<string>, c: Variables)
    ensures WarningSource in u && WarningTarget !in c ==>
      RedirectFrom(u, c, 0) == Failed(MissingVariables({WarningTarget}), c)
    ensures WarningSource !in u ==> RedirectFrom(u, c, 0) == RedirectFrom(u, c, 1)
    ensures WarningSource in u && WarningTarget in c ==>
      RedirectFrom(u, c, 0) == RedirectFrom(u - {WarningSource} + {WarningTarget}, c[WarningSource := c[WarningTarget]], 1)
  {
  }

  /** The redirection loop's second and last turn. */
  lemma RedirectSecondTurn(u: set<string>, c: Variables)
    ensures CriticalSource in u && CriticalTarget !in c ==>
      RedirectFrom(u, c, 1) == Failed(MissingVariables({CriticalTarget}), c)
    ensures CriticalSource !in u ==> RedirectFrom(u, c, 1) == Done(u, c)
    ensures CriticalSource in u && CriticalTarget in c ==>
      RedirectFrom(u, c, 1) == Done(u - {CriticalSource} + {CriticalTarget}, c[CriticalSource := c[CriticalTarget]])
  {
  }

  /**
    Redirection succeeds exactly when each redirected name's controlling
    variable is configured; it then leaves the names `Exposed(u)` and binds
    each redirected name to the value of its controlling variable, changing
    no other variable.
   */
  lemma RedirectSpec(u: set<string>, c: Variables)
    ensures RedirectFrom(u, c, 0).Done? <==>
      (WarningSource in u ==> WarningTarget in c) && (CriticalSource in u ==> CriticalTarget in c)
    ensures RedirectFrom(u, c, 0).Done? ==>
      var c' := RedirectFrom(u, c, 0).config;
      && RedirectFrom(u, c, 0).value == Exposed(u)
      && c'.Keys == c.Keys + (u * RedirectSources)
      && (forall k :: k in c && k !in u * RedirectSources ==> c'[k] == c[k])
      && (WarningSource in u ==> c'[WarningSource] == c[WarningTarget])
      && (CriticalSource in u ==> c'[CriticalSource] == c[CriticalTarget])
  {
    RedirectFirstTurn(u, c);
    if !(WarningSource in u && WarningTarget !in c) {
      var u1 := if WarningSource in u then u - {WarningSource} + {WarningTarget} else u;
      var c1 := if WarningSource in u then c[WarningSource := c[WarningTarget]] else c;
      assert RedirectFrom(u, c, 0) == RedirectFrom(u1, c1, 1);
      assert CriticalSource in u1 <==> CriticalSource in u;
      assert CriticalTarget in c1 <==> CriticalTarget in c;
      RedirectSecondTurn(u1, c1);
    }
  }

  /**
    `after` differs from `before` only at the redirected names, each of which
    keeps its value or holds the value of its controlling variable.
   */
  ghost predicate OnlyRedirected(before: Variables, after: Variables) {
    && before.Keys <= after.Keys
    && after.Keys <= before.Keys + RedirectSources
    && (forall k :: k in before && k !in RedirectSources ==> after[k] == before[k])
    && (WarningSource in after ==>
         (WarningSource in before && after[WarningSource] == before[WarningSource]) ||
         (WarningTarget in before && after[WarningSource] == before[WarningTarget]))
    && (CriticalSource in after ==>
         (CriticalSource in before && after[CriticalSource] == before[CriticalSource]) ||
         (CriticalTarget in before && after[CriticalSource] == before[CriticalTarget]))
  }

  lemma OnlyRedirectedTrans(a: Variables, b: Variables, c: Variables)
    requires OnlyRedirected(a, b) && OnlyRedirected(b, c)
    ensures OnlyRedirected(a, c)
  {
  }

  lemma RedirectOnlyRedirects(u: set<string>, c: Variables)
    ensures OnlyRedirected(c, RedirectFrom(u, c, 0).config)
  {
    RedirectSpec(u, c);
    if WarningSource in u && WarningTarget in c {
      var c1 := c[WarningSource := c[WarningTarget]];
      assert RedirectFrom(u, c, 0) == RedirectFrom(u - {WarningSource} + {WarningTarget}, c1, 1);
    }
  }

  lemma StepOnlyRedirects(ctx: Context, key: string, value: string, details: Details, config: Variables)
    ensures OnlyRedirected(config, StepEntry(ctx, key, value, details, config).config)
  {
    if key !in SkippedKeys && ctx.jinja.undeclared(value).Some? {
      RedirectOnlyRedirects(ctx.jinja.undeclared(value).value - IgnoredNames, config);
    }
  }

  lemma {:induction false} ResolveFromOnlyRedirects(ctx: Context, entries: Dict<string>, i: nat, details: Details, config: Variables)
    requires i <= |entries|
    ensures OnlyRedirected(config, ResolveFrom(ctx, entries, i, details, config).config)
    decreases |entries| - i
  {
    if i < |entries| {
      var o := StepEntry(ctx, entries[i].0, entries[i].1, details, config);
      StepOnlyRedirects(ctx, entries[i].0, entries[i].1, details, config);
      if o.Done? {
        ResolveFromOnlyRedirects(ctx, entries, i + 1, o.value, o.config);
        OnlyRedirectedTrans(config, o.config, ResolveFrom(ctx, entries, i + 1, o.value, o.config).config);
      }
    }
  }

  /**
    Resolving a check changes the shared configuration only by binding the
    redirected threshold names to their controlling variables' values, on
    success and on failure alike.
   */
  lemma ResolveOnlyRedirects(doc: Document, config: Variables, jinja: Jinja)
    ensures OnlyRedirected(config, Resolve(doc, config, jinja).config)
  {
    if AlarmCriteria(doc.alarms).Success? {
      var alarms := AlarmCriteria(doc.alarms).value;
      ResolveFromOnlyRedirects(ContextOf(doc, alarms, jinja), alarms + Remove(doc.details, ArgsKey), 0, [], config);
    }
  }

  /**
    A value fails for want of defaults exactly when some name it leaves
    undeclared, after ignoring and redirecting, is not configured.
   */
  lemma MissingDefaultsIff(ctx: Context, key: string, value: string, details: Details, config: Variables)
    requires key !in SkippedKeys && ctx.jinja.undeclared(value).Some?
    ensures var o := StepEntry(ctx, key, value, details, config);
      o.Failed? && o.error.MissingVariables? <==>
      !(Exposed(ctx.jinja.undeclared(value).value - IgnoredNames) <= config.Keys)
  {
    var u := ctx.jinja.undeclared(value).value - IgnoredNames;
    RedirectSpec(u, config);
    if RedirectFrom(u, config, 0).Done? {
      var c' := RedirectFrom(u, config, 0).config;
      assert Exposed(u) !! RedirectSources;
      assert Exposed(u) <= c'.Keys <==> Exposed(u) <= config.Keys;
    } else {
      assert WarningTarget in Exposed(u) || CriticalTarget in Exposed(u);
    }
  }

  // ---------------------------------------------------------------------------
  // The shape of the result
  // ---------------------------------------------------------------------------

  /**
    The entry stored under `key`: the key is `_check_variables` or an alarm
    that is neither a check-wide detail nor skipped; no ignored or redirected
    name is documented; each default is the value `config` gives the name;
    parsed criteria appear only under `_criteria`, and exactly under the alarm
    keys; a `_check_variables` entry that is not an alarm is never empty.
   */
  ghost predicate EntryShape(ctx: Context, config: Variables, key: string, e: map<string, Entry>) {
    && (key == CheckVariablesKey || (key in ctx.alarmKeys && key !in ctx.detailKeys && key !in SkippedKeys))
    && ConfiguredEntries(config, e)
    && (key in ctx.alarmKeys <==> CriteriaKey in e && e[CriteriaKey].Parsed?)
    && (key == CheckVariablesKey && key !in ctx.alarmKeys ==> e != map[])
  }

  /** Every name is documentable; a default is the configured value; parsed criteria only under `_criteria`. */
  ghost predicate ConfiguredEntries(config: Variables, e: map<string, Entry>) {
    forall name :: name in e ==>
      && name !in IgnoredNames && name !in RedirectSources
      && (e[name].Default? ==> name in config && e[name].value == config[name])
      && (e[name].Parsed? ==> name == CriteriaKey)
  }

  lemma MergeConfigured(config: Variables, e: map<string, Entry>, defaults: map<string, Entry>)
    requires ConfiguredEntries(config, e) && ConfiguredEntries(config, defaults)
    ensures ConfiguredEntries(config, e + defaults)
  {
  }

  lemma AddCriteria(config: Variables, e: map<string, Entry>, records: seq<Criteria.Record>)
    requires ConfiguredEntries(config, e)
    ensures ConfiguredEntries(config, e[CriteriaKey := Parsed(records)])
  {
  }

  ghost predicate DetailsShape(ctx: Context, config: Variables, d: Details) {
    forall key :: key in Keys(d) ==> EntryShape(ctx, config, key, Get(d, key))
  }

  /** The defaults of one value name only exposed names. */
  lemma ExposedNamesAllowed(names: set<string>)
    ensures forall n :: n in Exposed(names - IgnoredNames) ==> n !in IgnoredNames && n !in RedirectSources
  {
  }

  lemma AssignShape(ctx: Context, config: Variables, d: Details, key: string, e: map<string, Entry>)
    requires DetailsShape(ctx, config, d) && EntryShape(ctx, config, key, e)
    ensures DetailsShape(ctx, config, Assign(d, key, e))
    ensures Keys(Assign(d, key, e)) == Keys(d) + {key}
  {
  }

  lemma StoreShape(ctx: Context, orig: Variables, key: string, value: string, details: Details, defaults: map<string, Entry>, c: Variables)
    requires key in ctx.alarmKeys || key in ctx.detailKeys
    requires key !in SkippedKeys
    requires ConfiguredEntries(orig, defaults) && forall name :: name in defaults ==> defaults[name].Default?
    requires DetailsShape(ctx, orig, details)
    requires Store(ctx, key, value, details, defaults, c).Done?
    ensures DetailsShape(ctx, orig, Store(ctx, key, value, details, defaults, c).value)
    ensures Keys(details) <= Keys(Store(ctx, key, value, details, defaults, c).value)
    ensures key !in ctx.detailKeys ==> key in Keys(Store(ctx, key, value, details, defaults, c).value)
  {
    var target := if key in ctx.detailKeys then CheckVariablesKey else key;
    if !(key in ctx.detailKeys && defaults == map[]) {
      var e := if target in Keys(details) then Get(details, target) + defaults else defaults;
      MergedEntryShape(ctx, orig, key, details, defaults, e);
      if target in ctx.alarmKeys {
        var text := ctx.jinja.render(value, c).value;
        CriteriaShape(ctx, orig, details, target, e, Criteria.ParseCriteria(text));
      } else {
        AssignShape(ctx, orig, details, target, e);
      }
    }
  }

  /** The entry once the defaults are merged into it: shaped, except that an alarm still lacks its criteria. */
  lemma MergedEntryShape(ctx: Context, orig: Variables, key: string, details: Details, defaults: map<string, Entry>, e: map<string, Entry>)
    requires key in ctx.alarmKeys || key in ctx.detailKeys
    requires key !in SkippedKeys
    requires ConfiguredEntries(orig, defaults) && forall name :: name in defaults ==> defaults[name].Default?
    requires DetailsShape(ctx, orig, details)
    requires key in ctx.detailKeys ==> defaults != map[]
    requires var target := if key in ctx.detailKeys then CheckVariablesKey else key;
      e == if target in Keys(details) then Get(details, target) + defaults else defaults
    ensures var target := if key in ctx.detailKeys then CheckVariablesKey else key;
      && ConfiguredEntries(orig, e)
      && (target == CheckVariablesKey || (target in ctx.alarmKeys && target !in ctx.detailKeys && target !in SkippedKeys))
      && (target !in ctx.alarmKeys ==> EntryShape(ctx, orig, target, e))
  {
    var target := if key in ctx.detailKeys then CheckVariablesKey else key;
    if target in Keys(details) {
      MergeConfigured(orig, Get(details, target), defaults);
    }
  }

  /** An alarm's merged entry, completed with its parsed criteria, keeps the details shaped. */
  lemma CriteriaShape(ctx: Context, orig: Variables, details: Details, target: string, e: map<string, Entry>, records: seq<Criteria.Record>)
    requires target in ctx.alarmKeys && (target == CheckVariablesKey || (target !in ctx.detailKeys && target !in SkippedKeys))
    requires ConfiguredEntries(orig, e)
    requires DetailsShape(ctx, orig, details)
    ensures var merged := Assign(details, target, e);
      && DetailsShape(ctx, orig, Assign(merged, target, Get(merged, target)[CriteriaKey := Parsed(records)]))
      && Keys(Assign(merged, target, Get(merged, target)[CriteriaKey := Parsed(records)])) == Keys(details) + {target}
  {
    var merged := Assign(details, target, e);
    var e' := e[CriteriaKey := Parsed(records)];
    AddCriteria(orig, e, records);
    assert EntryShape(ctx, orig, target, e');
    var d := Assign(merged, target, e');
    forall key | key in Keys(d) ensures EntryShape(ctx, orig, key, Get(d, key)) {
      if key != target {
        assert Get(d, key) == Get(details, key);
      }
    }
  }

  lemma StepShape(ctx: Context, orig: Variables, key: string, value: string, details: Details, config: Variables)
    requires key in ctx.alarmKeys || key in ctx.detailKeys
    requires OnlyRedirected(orig, config)
    requires DetailsShape(ctx, orig, details)
    requires StepEntry(ctx, key, value, details, config).Done?
    ensures DetailsShape(ctx, orig, StepEntry(ctx, key, value, details, config).value)
    ensures Keys(details) <= Keys(StepEntry(ctx, key, value, details, config).value)
    ensures key !in SkippedKeys && key !in ctx.detailKeys ==> key in Keys(StepEntry(ctx, key, value, details, config).value)
  {
    if key !in SkippedKeys {
      var names := ctx.jinja.undeclared(value).value;
      RedirectSpec(names - IgnoredNames, config);
      ExposedNamesAllowed(names);
      var o := RedirectFrom(names - IgnoredNames, config, 0);
      var u, c := o.value, o.config;
      var defaults := map k | k in u :: Default(c[k]);
      forall name | name in defaults
        ensures name !in IgnoredNames && name !in RedirectSources && name in orig && defaults[name] == Default(orig[name])
      {
        assert name in config && c[name] == config[name];
      }
      assert ConfiguredEntries(orig, defaults);
      StoreShape(ctx, orig, key, value, details, defaults, c);
    }
  }

  lemma {:induction false} ResolveFromShape(ctx: Context, orig: Variables, entries: Dict<string>, i: nat, details: Details, config: Variables)
    requires i <= |entries|
    requires forall j :: i <= j < |entries| ==> entries[j].0 in ctx.alarmKeys || entries[j].0 in ctx.detailKeys
    requires OnlyRedirected(orig, config)
    requires DetailsShape(ctx, orig, details)
    requires ResolveFrom(ctx, entries, i, details, config).Done?
    ensures DetailsShape(ctx, orig, ResolveFrom(ctx, entries, i, details, config).value)
    ensures Keys(details) <= Keys(ResolveFrom(ctx, entries, i, details, config).value)
    ensures forall j :: i <= j < |entries| && entries[j].0 !in SkippedKeys && entries[j].0 !in ctx.detailKeys ==>
      entries[j].0 in Keys(ResolveFrom(ctx, entries, i, details, config).value)
    decreases |entries| - i
  {
    if i < |entries| {
      StepShape(ctx, orig, entries[i].0, entries[i].1, details, config);
      var o := StepEntry(ctx, entries[i].0, entries[i].1, details, config);
      StepOnlyRedirects(ctx, entries[i].0, entries[i].1, details, config);
      OnlyRedirectedTrans(orig, config, o.config);
      ResolveFromShape(ctx, orig, entries, i + 1, o.value, o.config);
    }
  }

  /**
    On success, the result's keys are exactly the alarms that are neither
    skipped (`file`, `url`) nor also check-wide details, plus possibly
    `_check_variables`; no ignored or redirected name is documented, and
    every documented default is the value configured before the call; the
    parsed criteria sit under `_criteria` of exactly the alarm keys; and a
    `_check_variables` entry that is not an alarm is never empty.
   */
  lemma ResolveShape(doc: Document, config: Variables, jinja: Jinja)
    requires Resolve(doc, config, jinja).Done?
    ensures var d := Resolve(doc, config, jinja).value;
      var ctx := Context(Keys(doc.alarms), Keys(doc.details) - {ArgsKey}, jinja);
      && DetailsShape(ctx, config, d)
      && forall key :: key in Keys(doc.alarms) && key !in SkippedKeys && key !in Keys(doc.details) - {ArgsKey} ==>
           key in Keys(d)
  {
    var alarms := AlarmCriteria(doc.alarms).value;
    var details := Remove(doc.details, ArgsKey);
    var ctx := ContextOf(doc, alarms, jinja);
    var entries := alarms + details;
    forall j | 0 <= j < |entries| ensures entries[j].0 in ctx.alarmKeys || entries[j].0 in ctx.detailKeys {
      if j < |alarms| {
        assert entries[j] == alarms[j];
        KeysAt(alarms, entries[j].0);
      } else {
        assert entries[j] == details[j - |alarms|];
        KeysAt(details, entries[j].0);
      }
    }
    ResolveFromShape(ctx, config, entries, 0, [], config);
    forall key | key in Keys(doc.alarms) && key !in SkippedKeys && key !in Keys(doc.details) - {ArgsKey}
      ensures key in Keys(Resolve(doc, config, jinja).value)
    {
      KeysAt(alarms, key);
      var j :| 0 <= j < |alarms| && alarms[j].0 == key;
      assert entries[j] == alarms[j];
    }
  }

  // ---------------------------------------------------------------------------
  // What the result documents
  // ---------------------------------------------------------------------------

  /** The names a value leaves to configure: its undeclared names less the ignored ones, thresholds redirected. */
  function Configurable(jinja: Jinja, value: string): Option<set<string>> {
    match jinja.undeclared(value)
    case None => None
    case Some(names) => Some(Exposed(names - IgnoredNames))
  }

  /**
    The entry under `t` documents each of `names` with its default from
    `config` (all but `_criteria`, whose place the parsed criteria take).
   */
  ghost predicate Documents(d: Details, config: Variables, t: string, names: set<string>) {
    && t in Keys(d)
    && forall n :: n in names && n != CriteriaKey ==> n in config && n in Get(d, t) && Get(d, t)[n] == Default(config[n])
  }

  /** Defaults as `config` gives them. */
  ghost predicate DrawnFrom(defaults: map<string, Entry>, config: Variables) {
    forall n :: n in defaults ==> n in config && defaults[n] == Default(config[n])
  }

  /** The entry under `target` once defaults are merged into it. */
  function MergedEntry(details: Details, target: string, defaults: map<string, Entry>): map<string, Entry> {
    if target in Keys(details) then Get(details, target) + defaults else defaults
  }

  lemma MergeKeeps(details: Details, target: string, defaults: map<string, Entry>, orig: Variables, t: string, names: set<string>)
    requires DrawnFrom(defaults, orig) && Documents(details, orig, t, names)
    ensures Documents(Assign(details, target, MergedEntry(details, target, defaults)), orig, t, names)
  {
    var d := Assign(details, target, MergedEntry(details, target, defaults));
    forall n | n in names && n != CriteriaKey ensures n in Get(d, t) && Get(d, t)[n] == Default(orig[n]) {
      if t == target && n in defaults {
        assert Get(d, t)[n] == defaults[n];
      }
    }
  }

  lemma MergeDocuments(details: Details, target: string, defaults: map<string, Entry>, orig: Variables)
    requires DrawnFrom(defaults, orig)
    ensures Documents(Assign(details, target, MergedEntry(details, target, defaults)), orig, target, defaults.Keys)
  {
  }

  lemma CriteriaKeeps(d: Details, target: string, records: seq<Criteria.Record>, orig: Variables, t: string, names: set<string>)
    requires Documents(d, orig, t, names) && target in Keys(d)
    ensures Documents(Assign(d, target, Get(d, target)[CriteriaKey := Parsed(records)]), orig, t, names)
  {
    var d' := Assign(d, target, Get(d, target)[CriteriaKey := Parsed(records)]);
    forall n | n in names && n != CriteriaKey ensures n in Get(d', t) && Get(d', t)[n] == Default(orig[n]) {
      if t == target {
        assert Get(d', t)[n] == Get(d, t)[n];
      }
    }
  }

  /** `Store` in the two steps the lemmas below take: merge the defaults, then add an alarm's criteria. */
  lemma StoreSteps(ctx: Context, key: string, value: string, details: Details, defaults: map<string, Entry>, c: Variables)
    requires Store(ctx, key, value, details, defaults, c).Done?
    ensures var target := if key in ctx.detailKeys then CheckVariablesKey else key;
      var merged := Assign(details, target, MergedEntry(details, target, defaults));
      var d := Store(ctx, key, value, details, defaults, c).value;
      && (key in ctx.detailKeys && defaults == map[] ==> d == details)
      && (!(key in ctx.detailKeys && defaults == map[]) && target !in ctx.alarmKeys ==> d == merged)
      && (!(key in ctx.detailKeys && defaults == map[]) && target in ctx.alarmKeys ==>
            target in Keys(merged) &&
            d == Assign(merged, target, Get(merged, target)[CriteriaKey := Parsed(Criteria.ParseCriteria(ctx.jinja.render(value, c).value))]))
  {
  }

  lemma StoreKeeps(ctx: Context, key: string, value: string, details: Details, defaults: map<string, Entry>, c: Variables,
                   orig: Variables, t: string, names: set<string>)
    requires DrawnFrom(defaults, orig) && Documents(details, orig, t, names)
    requires Store(ctx, key, value, details, defaults, c).Done?
    ensures Documents(Store(ctx, key, value, details, defaults, c).value, orig, t, names)
  {
    StoreSteps(ctx, key, value, details, defaults, c);
    var target := if key in ctx.detailKeys then CheckVariablesKey else key;
    if !(key in ctx.detailKeys && defaults == map[]) {
      MergeKeeps(details, target, defaults, orig, t, names);
      if target in ctx.alarmKeys {
        var merged := Assign(details, target, MergedEntry(details, target, defaults));
        CriteriaKeeps(merged, target, Criteria.ParseCriteria(ctx.jinja.render(value, c).value), orig, t, names);
      }
    }
  }

  lemma StoreDocuments(ctx: Context, key: string, value: string, details: Details, defaults: map<string, Entry>, c: Variables,
                       orig: Variables)
    requires DrawnFrom(defaults, orig)
    requires Store(ctx, key, value, details, defaults, c).Done?
    ensures key !in ctx.detailKeys ==> Documents(Store(ctx, key, value, details, defaults, c).value, orig, key, defaults.Keys)
    ensures key in ctx.detailKeys && defaults != map[] ==>
      Documents(Store(ctx, key, value, details, defaults, c).value, orig, CheckVariablesKey, defaults.Keys)
  {
    StoreSteps(ctx, key, value, details, defaults, c);
    var target := if key in ctx.detailKeys then CheckVariablesKey else key;
    if !(key in ctx.detailKeys && defaults == map[]) {
      MergeDocuments(details, target, defaults, orig);
      if target in ctx.alarmKeys {
        var merged := Assign(details, target, MergedEntry(details, target, defaults));
        CriteriaKeeps(merged, target, Criteria.ParseCriteria(ctx.jinja.render(value, c).value), orig, target, defaults.Keys);
      }
    }
  }

  /**
    A turn that succeeds on a key that is not skipped stores the defaults of
    the value's configurable names, as configured before the call began.
   */
  lemma StepStores(ctx: Context, key: string, value: string, details: Details, config: Variables, orig: Variables)
    requires key !in SkippedKeys && OnlyRedirected(orig, config)
    requires StepEntry(ctx, key, value, details, config).Done?
    ensures Configurable(ctx.jinja, value).Some?
    ensures var names := Configurable(ctx.jinja, value).value;
      var c := RedirectFrom(ctx.jinja.undeclared(value).value - IgnoredNames, config, 0).config;
      && names <= orig.Keys
      && StepEntry(ctx, key, value, details, config) == Store(ctx, key, value, details, map n | n in names :: Default(orig[n]), c)
  {
    var u := ctx.jinja.undeclared(value).value - IgnoredNames;
    RedirectSpec(u, config);
    ExposedNamesAllowed(ctx.jinja.undeclared(value).value);
    var o := RedirectFrom(u, config, 0);
    forall n | n in o.value ensures n in orig && o.config[n] == orig[n] {
      assert n in config;
    }
    assert (map n | n in o.value :: Default(o.config[n])) == (map n | n in o.value :: Default(orig[n]));
  }

  lemma StepKeeps(ctx: Context, key: string, value: string, details: Details, config: Variables,
                  orig: Variables, t: string, names: set<string>)
    requires OnlyRedirected(orig, config) && Documents(details, orig, t, names)
    requires StepEntry(ctx, key, value, details, config).Done?
    ensures Documents(StepEntry(ctx, key, value, details, config).value, orig, t, names)
  {
    if key !in SkippedKeys {
      StepStores(ctx, key, value, details, config, orig);
      var u := Configurable(ctx.jinja, value).value;
      var c := RedirectFrom(ctx.jinja.undeclared(value).value - IgnoredNames, config, 0).config;
      StoreKeeps(ctx, key, value, details, map n | n in u :: Default(orig[n]), c, orig, t, names);
    }
  }

  lemma StepDocuments(ctx: Context, key: string, value: string, details: Details, config: Variables, orig: Variables)
    requires key !in SkippedKeys && OnlyRedirected(orig, config)
    requires StepEntry(ctx, key, value, details, config).Done?
    ensures Configurable(ctx.jinja, value).Some?
    ensures var names := Configurable(ctx.jinja, value).value;
      var d := StepEntry(ctx, key, value, details, config).value;
      && (key !in ctx.detailKeys ==> Documents(d, orig, key, names))
      && (key in ctx.detailKeys && names != {} ==> Documents(d, orig, CheckVariablesKey, names))
  {
    StepStores(ctx, key, value, details, config, orig);
    var u := Configurable(ctx.jinja, value).value;
    var c := RedirectFrom(ctx.jinja.undeclared(value).value - IgnoredNames, config, 0).config;
    var defaults := map n | n in u :: Default(orig[n]);
    assert defaults.Keys == u;
    if u != {} {
      var n :| n in u;
      assert n in defaults;
    }
    StoreDocuments(ctx, key, value, details, defaults, c, orig);
  }

  lemma {:induction false} ResolveFromKeeps(ctx: Context, entries: Dict<string>, i: nat, details: Details, config: Variables,
                                            orig: Variables, t: string, names: set<string>)
    requires i <= |entries|
    requires OnlyRedirected(orig, config) && Documents(details, orig, t, names)
    requires ResolveFrom(ctx, entries, i, details, config).Done?
    ensures Documents(ResolveFrom(ctx, entries, i, details, config).value, orig, t, names)
    decreases |entries| - i
  {
    if i < |entries| {
      var o := StepEntry(ctx, entries[i].0, entries[i].1, details, config);
      StepKeeps(ctx, entries[i].0, entries[i].1, details, config, orig, t, names);
      StepOnlyRedirects(ctx, entries[i].0, entries[i].1, details, config);
      OnlyRedirectedTrans(orig, config, o.config);
      ResolveFromKeeps(ctx, entries, i + 1, o.value, o.config, orig, t, names);
    }
  }

  lemma {:induction false} ResolveFromDocuments(ctx: Context, entries: Dict<string>, i: nat, details: Details, config: Variables,
                                                orig: Variables, j: nat)
    requires i <= j < |entries| && entries[j].0 !in SkippedKeys
    requires OnlyRedirected(orig, config)
    requires ResolveFrom(ctx, entries, i, details, config).Done?
    ensures Configurable(ctx.jinja, entries[j].1).Some?
    ensures var names := Configurable(ctx.jinja, entries[j].1).value;
      var d := ResolveFrom(ctx, entries, i, details, config).value;
      && (entries[j].0 !in ctx.detailKeys ==> Documents(d, orig, entries[j].0, names))
      && (entries[j].0 in ctx.detailKeys && names != {} ==> Documents(d, orig, CheckVariablesKey, names))
    decreases |entries| - i
  {
    var o := StepEntry(ctx, entries[i].0, entries[i].1, details, config);
    StepOnlyRedirects(ctx, entries[i].0, entries[i].1, details, config);
    OnlyRedirectedTrans(orig, config, o.config);
    if i == j {
      StepDocuments(ctx, entries[i].0, entries[i].1, details, config, orig);
      var names := Configurable(ctx.jinja, entries[j].1).value;
      if entries[j].0 !in ctx.detailKeys {
        ResolveFromKeeps(ctx, entries, i + 1, o.value, o.config, orig, entries[j].0, names);
      } else if names != {} {
        ResolveFromKeeps(ctx, entries, i + 1, o.value, o.config, orig, CheckVariablesKey, names);
      }
    } else {
      ResolveFromDocuments(ctx, entries, i + 1, o.value, o.config, orig, j);
    }
  }

  /** The entries `Resolve` loops over, when the alarms have their criteria. */
  lemma ResolveEntries(doc: Document, config: Variables, jinja: Jinja)
    requires Resolve(doc, config, jinja).Done?
    ensures AlarmCriteria(doc.alarms).Success?
    ensures var alarms := AlarmCriteria(doc.alarms).value;
      Resolve(doc, config, jinja) ==
        ResolveFrom(ContextOf(doc, alarms, jinja), alarms + Remove(doc.details, ArgsKey), 0, [], config)
  {
  }

  lemma AlarmDocumented(doc: Document, config: Variables, jinja: Jinja, i: nat)
    requires Resolve(doc, config, jinja).Done?
    requires i < |doc.alarms| && doc.alarms[i].0 !in SkippedKeys && doc.alarms[i].0 !in Keys(doc.details) - {ArgsKey}
    ensures "criteria" in Keys(doc.alarms[i].1)
    ensures var names := Configurable(jinja, Get(doc.alarms[i].1, "criteria"));
      names.Some? && Documents(Resolve(doc, config, jinja).value, config, doc.alarms[i].0, names.value)
  {
    ResolveEntries(doc, config, jinja);
    var alarms := AlarmCriteria(doc.alarms).value;
    var entries := alarms + Remove(doc.details, ArgsKey);
    assert entries[i] == alarms[i];
    ResolveFromDocuments(ContextOf(doc, alarms, jinja), entries, 0, [], config, config, i);
  }

  lemma DetailDocumented(doc: Document, config: Variables, jinja: Jinja, i: nat)
    requires Resolve(doc, config, jinja).Done?
    requires i < |doc.details| && doc.details[i].0 !in SkippedKeys && doc.details[i].0 != ArgsKey
    ensures var names := Configurable(jinja, doc.details[i].1);
      names.Some? && (names.value != {} ==> Documents(Resolve(doc, config, jinja).value, config, CheckVariablesKey, names.value))
  {
    ResolveEntries(doc, config, jinja);
    var alarms := AlarmCriteria(doc.alarms).value;
    var j := DetailEntry(alarms, doc.details, i);
    ResolveFromDocuments(ContextOf(doc, alarms, jinja), alarms + Remove(doc.details, ArgsKey), 0, [], config, config, j);
  }

  /** Where a check-wide detail other than `args` sits among the entries the loop visits. */
  lemma DetailEntry(alarms: Dict<string>, details: Dict<string>, i: nat) returns (j: nat)
    requires i < |details| && details[i].0 != ArgsKey
    ensures var entries := alarms + Remove(details, ArgsKey);
      j < |entries| && entries[j] == details[i] && details[i].0 in Keys(Remove(details, ArgsKey))
  {
    var kept := Remove(details, ArgsKey);
    RemoveKeeps(details, ArgsKey, i);
    var k :| 0 <= k < |kept| && kept[k] == details[i];
    KeysAt(kept, details[i].0);
    j := |alarms| + k;
    assert (alarms + kept)[j] == kept[k];
  }

  /**
    On success, each alarm that is not skipped and not also a check-wide
    detail has an entry documenting every name its criteria leave to
    configure, with the default configured before the call; and
    `_check_variables` documents likewise every name a check-wide detail
    leaves to configure.
   */
  lemma ResolveDocumentsNames(doc: Document, config: Variables, jinja: Jinja)
    requires Resolve(doc, config, jinja).Done?
    ensures forall i :: 0 <= i < |doc.alarms| ==> "criteria" in Keys(doc.alarms[i].1)
    ensures forall i :: 0 <= i < |doc.alarms| && doc.alarms[i].0 !in SkippedKeys && doc.alarms[i].0 !in Keys(doc.details) - {ArgsKey} ==>
      var names := Configurable(jinja, Get(doc.alarms[i].1, "criteria"));
      names.Some? && Documents(Resolve(doc, config, jinja).value, config, doc.alarms[i].0, names.value)
    ensures forall i :: 0 <= i < |doc.details| && doc.details[i].0 !in SkippedKeys && doc.details[i].0 != ArgsKey ==>
      var names := Configurable(jinja, doc.details[i].1);
      names.Some? && (names.value != {} ==> Documents(Resolve(doc, config, jinja).value, config, CheckVariablesKey, names.value))
  {
    ResolveEntries(doc, config, jinja);
    forall i | 0 <= i < |doc.alarms| && doc.alarms[i].0 !in SkippedKeys && doc.alarms[i].0 !in Keys(doc.details) - {ArgsKey}
      ensures var names := Configurable(jinja, Get(doc.alarms[i].1, "criteria"));
        names.Some? && Documents(Resolve(doc, config, jinja).value, config, doc.alarms[i].0, names.value)
    {
      AlarmDocumented(doc, config, jinja, i);
    }
    forall i | 0 <= i < |doc.details| && doc.details[i].0 !in SkippedKeys && doc.details[i].0 != ArgsKey
      ensures var names := Configurable(jinja, doc.details[i].1);
        names.Some? && (names.value != {} ==> Documents(Resolve(doc, config, jinja).value, config, CheckVariablesKey, names.value))
    {
      DetailDocumented(doc, config, jinja, i);
    }
  }

  // ---------------------------------------------------------------------------
  // An alarm's own entry
  // ---------------------------------------------------------------------------

  /** `d` and `d'` agree on whether `a` is a key and, where it is, on its entry. */
  ghost predicate SameEntry(d: Details, d': Details, a: string) {
    && (a in Keys(d') <==> a in Keys(d))
    && (a in Keys(d) ==> Get(d', a) == Get(d, a))
  }

  lemma StoreUntouched(ctx: Context, key: string, value: string, details: Details, defaults: map<string, Entry>, c: Variables, a: string)
    requires key != a && a != CheckVariablesKey
    requires Store(ctx, key, value, details, defaults, c).Done?
    ensures SameEntry(details, Store(ctx, key, value, details, defaults, c).value, a)
  {
    StoreSteps(ctx, key, value, details, defaults, c);
  }

  /** A turn on another key leaves the entry of `a` as it was. */
  lemma StepUntouched(ctx: Context, key: string, value: string, details: Details, config: Variables, a: string)
    requires key != a && a != CheckVariablesKey
    requires StepEntry(ctx, key, value, details, config).Done?
    ensures SameEntry(details, StepEntry(ctx, key, value, details, config).value, a)
  {
    if key !in SkippedKeys {
      var u := ctx.jinja.undeclared(value).value - IgnoredNames;
      var o := RedirectFrom(u, config, 0);
      StoreUntouched(ctx, key, value, details, map k | k in o.value :: Default(o.config[k]), o.config, a);
    }
  }

  lemma {:induction false} ResolveFromUntouched(ctx: Context, entries: Dict<string>, i: nat, details: Details, config: Variables, a: string)
    requires i <= |entries| && a != CheckVariablesKey
    requires forall j :: i <= j < |entries| ==> entries[j].0 != a
    requires ResolveFrom(ctx, entries, i, details, config).Done?
    ensures SameEntry(details, ResolveFrom(ctx, entries, i, details, config).value, a)
    decreases |entries| - i
  {
    if i < |entries| {
      var o := StepEntry(ctx, entries[i].0, entries[i].1, details, config);
      StepUntouched(ctx, entries[i].0, entries[i].1, details, config, a);
      ResolveFromUntouched(ctx, entries, i + 1, o.value, o.config, a);
    }
  }

  /**
    `c` is a configuration the criteria may be rendered against: it differs
    from `config` only at the redirected names, and each threshold the value
    mentions holds its controlling variable's value.
   */
  ghost predicate RenderConfig(config: Variables, c: Variables, undeclared: set<string>) {
    && OnlyRedirected(config, c)
    && (WarningSource in undeclared ==> WarningTarget in config && WarningSource in c && c[WarningSource] == config[WarningTarget])
    && (CriticalSource in undeclared ==> CriticalTarget in config && CriticalSource in c && c[CriticalSource] == config[CriticalTarget])
  }

  /** The entry an alarm gets on its own: its defaults, and its criteria rendered against `c` and parsed. */
  ghost predicate AlarmEntry(e: map<string, Entry>, config: Variables, names: set<string>, value: string, jinja: Jinja, c: Variables) {
    && names <= config.Keys
    && jinja.render(value, c).Some?
    && e == (map n | n in names :: Default(config[n]))[CriteriaKey := Parsed(Criteria.ParseCriteria(jinja.render(value, c).value))]
  }

  /** The redirection a turn performs gives a configuration to render against. */
  lemma RedirectRenderConfig(u: set<string>, config: Variables, orig: Variables)
    requires OnlyRedirected(orig, config) && RedirectFrom(u, config, 0).Done?
    ensures RenderConfig(orig, RedirectFrom(u, config, 0).config, u)
  {
    RedirectSpec(u, config);
    RedirectOnlyRedirects(u, config);
    OnlyRedirectedTrans(orig, config, RedirectFrom(u, config, 0).config);
  }

  /** Storing for an alarm that has no entry yet gives it its defaults and its parsed criteria, nothing else. */
  lemma StoreAlarmEntry(ctx: Context, key: string, value: string, details: Details, defaults: map<string, Entry>, c: Variables)
    requires key in ctx.alarmKeys && key !in ctx.detailKeys && key !in Keys(details)
    requires Store(ctx, key, value, details, defaults, c).Done?
    ensures var d := Store(ctx, key, value, details, defaults, c).value;
      && ctx.jinja.render(value, c).Some?
      && key in Keys(d)
      && Get(d, key) == defaults[CriteriaKey := Parsed(Criteria.ParseCriteria(ctx.jinja.render(value, c).value))]
  {
    StoreSteps(ctx, key, value, details, defaults, c);
    assert MergedEntry(details, key, defaults) == defaults;
  }

  /** The turn of an alarm that has no entry yet gives it exactly its own entry. */
  lemma StepAlarmEntry(ctx: Context, key: string, value: string, details: Details, config: Variables, orig: Variables)
    returns (c: Variables)
    requires key in ctx.alarmKeys && key !in ctx.detailKeys && key !in SkippedKeys && key !in Keys(details)
    requires OnlyRedirected(orig, config)
    requires StepEntry(ctx, key, value, details, config).Done?
    ensures Configurable(ctx.jinja, value).Some?
    ensures var d := StepEntry(ctx, key, value, details, config).value;
      && key in Keys(d)
      && RenderConfig(orig, c, ctx.jinja.undeclared(value).value)
      && AlarmEntry(Get(d, key), orig, Configurable(ctx.jinja, value).value, value, ctx.jinja, c)
  {
    StepStores(ctx, key, value, details, config, orig);
    var u := ctx.jinja.undeclared(value).value - IgnoredNames;
    c := RedirectFrom(u, config, 0).config;
    RedirectRenderConfig(u, config, orig);
    var names := Configurable(ctx.jinja, value).value;
    StoreAlarmEntry(ctx, key, value, details, map n | n in names :: Default(orig[n]), c);
  }

  lemma {:induction false} ResolveFromAlarm(ctx: Context, entries: Dict<string>, k: nat, details: Details, config: Variables,
                                            orig: Variables, i: nat) returns (c: Variables)
    requires k <= i < |entries|
    requires var a := entries[i].0;
      && a in ctx.alarmKeys && a !in ctx.detailKeys && a !in SkippedKeys && a != CheckVariablesKey && a !in Keys(details)
      && forall j :: k <= j < |entries| && j != i ==> entries[j].0 != a
    requires OnlyRedirected(orig, config)
    requires ResolveFrom(ctx, entries, k, details, config).Done?
    ensures Configurable(ctx.jinja, entries[i].1).Some?
    ensures var d := ResolveFrom(ctx, entries, k, details, config).value;
      && entries[i].0 in Keys(d)
      && RenderConfig(orig, c, ctx.jinja.undeclared(entries[i].1).value)
      && AlarmEntry(Get(d, entries[i].0), orig, Configurable(ctx.jinja, entries[i].1).value, entries[i].1, ctx.jinja, c)
    decreases |entries| - k
  {
    var a := entries[i].0;
    var o := StepEntry(ctx, entries[k].0, entries[k].1, details, config);
    StepOnlyRedirects(ctx, entries[k].0, entries[k].1, details, config);
    OnlyRedirectedTrans(orig, config, o.config);
    if k == i {
      c := StepAlarmEntry(ctx, a, entries[i].1, details, config, orig);
      ResolveFromUntouched(ctx, entries, k + 1, o.value, o.config, a);
    } else {
      StepUntouched(ctx, entries[k].0, entries[k].1, details, config, a);
      c := ResolveFromAlarm(ctx, entries, k + 1, o.value, o.config, orig, i);
    }
  }

  /** No entry other than alarm `i` carries its key, when no other alarm does. */
  lemma AlarmEntryUnique(doc: Document, alarms: Dict<string>, i: nat)
    requires AlarmCriteria(doc.alarms) == Success(alarms)
    requires i < |doc.alarms| && doc.alarms[i].0 !in Keys(doc.details) - {ArgsKey}
    requires forall j :: 0 <= j < |doc.alarms| && j != i ==> doc.alarms[j].0 != doc.alarms[i].0
    ensures var entries := alarms + Remove(doc.details, ArgsKey);
      && i < |entries| && entries[i] == alarms[i] && alarms[i].0 == doc.alarms[i].0
      && forall j :: 0 <= j < |entries| && j != i ==> entries[j].0 != doc.alarms[i].0
  {
    var kept := Remove(doc.details, ArgsKey);
    var entries := alarms + kept;
    forall j | 0 <= j < |entries| && j != i ensures entries[j].0 != doc.alarms[i].0 {
      if j < |alarms| {
        assert entries[j] == alarms[j];
      } else {
        assert entries[j] == kept[j - |alarms|];
        KeysAt(kept, kept[j - |alarms|].0);
      }
    }
  }

  /**
    On success, an alarm that occurs once, is not skipped, and is neither a
    check-wide detail nor named `_check_variables` has exactly its own entry:
    the default, as configured before the call, of each name its criteria
    leave to configure, and under `_criteria` the records of its criteria
    rendered against the configuration with the thresholds it mentions
    redirected.
   */
  lemma ResolveAlarmEntry(doc: Document, config: Variables, jinja: Jinja, i: nat) returns (c: Variables)
    requires Resolve(doc, config, jinja).Done?
    requires i < |doc.alarms| && doc.alarms[i].0 !in SkippedKeys && doc.alarms[i].0 != CheckVariablesKey
    requires doc.alarms[i].0 !in Keys(doc.details) - {ArgsKey}
    requires forall j :: 0 <= j < |doc.alarms| && j != i ==> doc.alarms[j].0 != doc.alarms[i].0
    ensures "criteria" in Keys(doc.alarms[i].1)
    ensures var v := Get(doc.alarms[i].1, "criteria");
      var d := Resolve(doc, config, jinja).value;
      && Configurable(jinja, v).Some?
      && doc.alarms[i].0 in Keys(d)
      && RenderConfig(config, c, jinja.undeclared(v).value)
      && AlarmEntry(Get(d, doc.alarms[i].0), config, Configurable(jinja, v).value, v, jinja, c)
  {
    ResolveEntries(doc, config, jinja);
    var alarms := AlarmCriteria(doc.alarms).value;
    AlarmEntryUnique(doc, alarms, i);
    KeysAt(doc.alarms, doc.alarms[i].0);
    c := ResolveFromAlarm(ContextOf(doc, alarms, jinja), alarms + Remove(doc.details, ArgsKey), 0, [], config, config, i);
  }
}
