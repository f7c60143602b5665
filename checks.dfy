/**
  The documentation driver (`check_details`): the defaults and globals are
  built once, then every check template except the skipped ones is loaded
  and resolved in turn against the one shared configuration, and paired
  with its label.
 */
module Checks {
  import opened Wrappers
  import opened RemappingLoader
  import opened Defaults
  import opened CheckDetails

  /** Templates that are never processed: the base template and one that breaks the build. */
  const SkippedTemplates: seq<string> := ["checks_base.yaml.j2", "ceph_rgw_stats.yaml.j2"]

  /** The template files that are processed, in the order they are found. */
  function Kept(names: seq<string>): seq<string>
    decreases |names|
  {
    if names == [] then []
    else (if names[0] in SkippedTemplates then [] else [names[0]]) + Kept(names[1..])
  }

  lemma {:induction false} KeptAppend(names: seq<string>, name: string)
    ensures Kept(names + [name]) == Kept(names) + (if name in SkippedTemplates then [] else [name])
    decreases |names|
  {
    if names == [] {
      assert [name][1..] == [];
    } else {
      assert (names + [name])[1..] == names[1..] + [name];
      KeptAppend(names[1..], name);
    }
  }

  /** Exactly the templates not on the skip list are kept, in their order, each as often as it occurs. */
  lemma {:induction false} KeptSpec(names: seq<string>)
    ensures forall x :: x in Kept(names) <==> x in names && x !in SkippedTemplates
    ensures forall x :: x !in SkippedTemplates ==> multiset(Kept(names))[x] == multiset(names)[x]
    ensures forall x :: x in SkippedTemplates ==> multiset(Kept(names))[x] == 0
    decreases |names|
  {
    if names != [] {
      KeptSpec(names[1..]);
      assert names == [names[0]] + names[1..];
    }
  }

  /** `template.module.label` when the template module defines one, otherwise the document's `label`. */
  function CheckLabel(moduleLabel: Option<string>, doc: Document): (r: Option<string>)
    ensures r.Some? <==> moduleLabel.Some? || doc.checkLabel.Some?
    ensures moduleLabel.Some? ==> r == moduleLabel
    ensures moduleLabel.None? ==> r == doc.checkLabel
  {
    match moduleLabel
    case Some(name) => Some(name)
    case None => doc.checkLabel
  }

  /** The per-template steps the driver delegates to the template and YAML libraries, taken as given. */
  datatype Templates = Templates(
    names: seq<string>,                                   // the template files found, in order
    load: (string, Variables) -> Document,                // render with the globals, then load with RemappingLoader
    moduleLabel: (string, Variables) -> Option<string>)   // template.module.label; None on AttributeError

  datatype CheckError =
    | MissingProcessList(name: string)   // _get_globals found no such configuration variable
    | Resolving(error: ResolveError)     // _get_check_details raised

  /** One documented check: its label and its details. */
  type Check = (Option<string>, Details)

  /** The checks of the kept templates from `i` on, each resolved against the configuration the previous ones left. */
  function RunFrom(t: Templates, resolve: (Document, Variables) -> Outcome<Details>, kept: seq<string>, i: nat, globals: Variables, config: Variables): (seq<Check>, Option<CheckError>)
    requires i <= |kept|
    decreases |kept| - i
  {
    if i == |kept| then ([], None)
    else
      var doc := t.load(kept[i], globals);
      match resolve(doc, config)
      case Failed(e, _) => ([], Some(Resolving(e)))
      case Done(d, c) =>
        var rest := RunFrom(t, resolve, kept, i + 1, globals, c);
        ([(CheckLabel(t.moduleLabel(kept[i], globals), doc), d)] + rest.0, rest.1)
  }

  /** `_get_check_details` with the template environment fixed. */
  function Resolver(jinja: Jinja): (Document, Variables) -> Outcome<Details> {
    (doc, config) => Resolve(doc, config, jinja)
  }

  /** All the checks `check_details` yields, and the error that stops it, if any. */
  function Run(files: seq<Variables>, t: Templates, jinja: Jinja): (seq<Check>, Option<CheckError>) {
    var config := Defaults.Defaults(files);
    match Globals(config)
    case Failure(name) => ([], Some(MissingProcessList(name)))
    case Success(globals) => RunFrom(t, Resolver(jinja), Kept(t.names), 0, globals, config)
  }

  /** `check_details(root)`: the checks yielded, in order, and the error that ended the generator early. */
  method AllCheckDetails(files: seq<Variables>, t: Templates, jinja: Jinja) returns (checks: seq<Check>, err: Option<CheckError>)
    ensures (checks, err) == Run(files, t, jinja)
  {
    var defaults := GetDefaults(files);
    var config := new ConfigVariables(defaults);
    var g := GetGlobals(config.vars);
    if g.Failure? {
      return [], Some(MissingProcessList(g.error));
    }
    checks, err := ResolveTemplates(t, jinja, g.value, config);
  }

  /** The loop of `check_details` over the template files, against one shared configuration. */
  method ResolveTemplates(t: Templates, jinja: Jinja, globals: Variables, config: ConfigVariables)
    returns (checks: seq<Check>, err: Option<CheckError>)
    modifies config
    ensures (checks, err) == RunFrom(t, Resolver(jinja), Kept(t.names), 0, globals, old(config.vars))
  {
    ghost var resolve := Resolver(jinja);
    ghost var kept := Kept(t.names);
    ghost var i: nat := 0;
    ghost var all := RunFrom(t, resolve, kept, 0, globals, config.vars);
    checks := [];
    assert t.names[..0] == [];
    for n := 0 to |t.names|
      invariant i <= |kept| && Kept(t.names[..n]) == kept[..i]
      invariant checks + RunFrom(t, resolve, kept, i, globals, config.vars).0 == all.0
      invariant RunFrom(t, resolve, kept, i, globals, config.vars).1 == all.1
    {
      var name := t.names[n];
      KeptNext(t.names, n, i);
      if name in SkippedTemplates {  // the base template, then the one that breaks the build
        continue;
      }
      ghost var before := config.vars;
      var doc := t.load(name, globals);
      var details := ResolveOne(doc, config, jinja);
      if details.Failure? {
        RunFromFailed(t, resolve, kept, i, globals, before);
        assert checks + [] == checks;
        return checks, Some(Resolving(details.error));
      }
      var check := (CheckLabel(t.moduleLabel(name, globals), doc), details.value);
      RunFromDone(t, resolve, kept, i, globals, before, checks, check);
      checks := checks + [check];
      i := i + 1;
    }
    KeptAll(t.names, i);
    assert checks + [] == checks;
    return checks, None;
  }

  /** `_get_check_details` on one loaded template, as the resolver the driver's specification uses. */
  method ResolveOne(doc: Document, config: ConfigVariables, jinja: Jinja)
    returns (r: Result<Details, ResolveError>)
    modifies config
    ensures var o := Resolver(jinja)(doc, old(config.vars));
      && config.vars == o.config
      && r == (if o.Done? then Success(o.value) else Failure(o.error))
  {
    r := GetCheckDetails(doc, config, jinja);
  }

  lemma KeptNext(names: seq<string>, n: nat, i: nat)
    requires n < |names| && i <= |Kept(names)| && Kept(names[..n]) == Kept(names)[..i]
    ensures names[n] in SkippedTemplates ==> Kept(names[..n + 1]) == Kept(names)[..i]
    ensures names[n] !in SkippedTemplates ==>
      i < |Kept(names)| && Kept(names)[i] == names[n] && Kept(names[..n + 1]) == Kept(names)[..i + 1]
  {
    assert names[..n + 1] == names[..n] + [names[n]];
    KeptAppend(names[..n], names[n]);
    KeptPrefix(names, n + 1);
    if names[n] !in SkippedTemplates {
      assert |Kept(names[..n + 1])| == i + 1;
      assert Kept(names[..n + 1])[i] == names[n];
    }
  }

  lemma KeptAll(names: seq<string>, i: nat)
    requires i <= |Kept(names)| && Kept(names[..|names|]) == Kept(names)[..i]
    ensures i == |Kept(names)|
  {
    assert names[..|names|] == names;
    assert |Kept(names)[..i]| == |Kept(names)|;
  }

  lemma RunFromFailed(t: Templates, resolve: (Document, Variables) -> Outcome<Details>, kept: seq<string>, i: nat,
                      globals: Variables, config: Variables)
    requires i < |kept| && resolve(t.load(kept[i], globals), config).Failed?
    ensures RunFrom(t, resolve, kept, i, globals, config) == ([], Some(Resolving(resolve(t.load(kept[i], globals), config).error)))
  {
  }

  lemma RunFromDone(t: Templates, resolve: (Document, Variables) -> Outcome<Details>, kept: seq<string>, i: nat,
                    globals: Variables, config: Variables, checks: seq<Check>, check: Check)
    requires i < |kept|
    requires var doc := t.load(kept[i], globals);
      && resolve(doc, config).Done?
      && check == (CheckLabel(t.moduleLabel(kept[i], globals), doc), resolve(doc, config).value)
    ensures var rest := RunFrom(t, resolve, kept, i + 1, globals, resolve(t.load(kept[i], globals), config).config);
      && (checks + [check]) + rest.0 == checks + RunFrom(t, resolve, kept, i, globals, config).0
      && rest.1 == RunFrom(t, resolve, kept, i, globals, config).1
  {
    var rest := RunFrom(t, resolve, kept, i + 1, globals, resolve(t.load(kept[i], globals), config).config);
    assert RunFrom(t, resolve, kept, i, globals, config).0 == [check] + rest.0;
    assert (checks + [check]) + rest.0 == checks + ([check] + rest.0);
  }

  lemma {:induction false} KeptPrefix(names: seq<string>, n: nat)
    requires n <= |names|
    ensures Kept(names[..n]) <= Kept(names)
    decreases |names| - n
  {
    if n < |names| {
      KeptPrefix(names, n + 1);
      assert names[..n + 1] == names[..n] + [names[n]];
      KeptAppend(names[..n], names[n]);
    } else {
      assert names[..n] == names;
    }
  }

  lemma {:induction false} RunFromChecks(t: Templates, resolve: (Document, Variables) -> Outcome<Details>, kept: seq<string>, i: nat, globals: Variables, config: Variables)
    requires i <= |kept|
    ensures var (checks, err) := RunFrom(t, resolve, kept, i, globals, config);
      && |checks| <= |kept| - i
      && (err.None? ==> |checks| == |kept| - i)
      && forall k :: 0 <= k < |checks| ==>
           checks[k].0 == CheckLabel(t.moduleLabel(kept[i + k], globals), t.load(kept[i + k], globals))
    decreases |kept| - i
  {
    if i < |kept| {
      var doc := t.load(kept[i], globals);
      if resolve(doc, config).Done? {
        RunFromChecks(t, resolve, kept, i + 1, globals, resolve(doc, config).config);
      }
    }
  }

  /**
    One check per kept template, in order, until the first error: each is
    labelled by its template module's `label`, or failing that by the
    document's `label`; with no error every kept template yields a check.
   */
  lemma RunChecks(files: seq<Variables>, t: Templates, jinja: Jinja)
    ensures var (checks, err) := Run(files, t, jinja);
      && |checks| <= |Kept(t.names)|
      && (err.None? ==> |checks| == |Kept(t.names)|)
      && (Globals(Defaults.Defaults(files)).Success? ==>
           var globals := Globals(Defaults.Defaults(files)).value;
           forall k :: 0 <= k < |checks| ==>
             checks[k].0 == CheckLabel(t.moduleLabel(Kept(t.names)[k], globals), t.load(Kept(t.names)[k], globals)))
  {
    var config := Defaults.Defaults(files);
    if Globals(config).Success? {
      RunFromChecks(t, Resolver(jinja), Kept(t.names), 0, Globals(config).value, config);
    }
  }
}
