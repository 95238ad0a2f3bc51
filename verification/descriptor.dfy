/** Target descriptions (wa/framework/target/descriptor.py): the parameter
    records of a description, replacing parameters by name, the default
    configuration of a description, and looking descriptions up by name.
    Target, platform, connection and assistant classes appear by name only. */
module Descriptors {
  import opened Wrappers
  import opened Dicts
  import opened Values

  /** A configuration parameter: its name, the other names it answers to,
      its default value and whether it is deprecated. */
  datatype Parameter = Parameter(name: string, aliases: seq<string>, default: Value, deprecated: bool)

  /** A `TargetDescription`: the classes it combines and the parameters each
      of them accepts. `source` is the name of the descriptor that made it;
      an absent platform class is `None`. The connection class appears
      twice, as in the source: `connection` is the one given to the
      constructor (the attribute `instantiate_target` reads), and `conn`
      is the attribute `get_descriptions` assigns afterwards, `None` when
      nothing assigned it. */
  datatype Description = Description(
    name: string,
    source: string,
    target: string,
    platform: Option<string>,
    connection: Option<string>,
    conn: Option<string>,
    assistant: string,
    targetParams: seq<Parameter>,
    platformParams: seq<Parameter>,
    connParams: seq<Parameter>,
    assistantParams: seq<Parameter>)

  datatype DescriptorError =
    | DuplicateTarget(name: string, previous: string, current: string)   // PluginLoaderError
    | UnknownTarget(name: string)                                          // ValueError
    | UnexpectedParameter(target: string, name: string)                    // ValueError
    | PlatformClash(name: string)                                          // RuntimeError

  /** The name of every item, in order, as `[x.name for x in xs]`. */
  function NamesOf<T>(xs: seq<T>, name: T -> string): (ns: seq<string>)
    ensures |ns| == |xs|
    ensures forall i :: 0 <= i < |xs| ==> ns[i] == name(xs[i])
  {
    seq(|xs|, i requires 0 <= i < |xs| => name(xs[i]))
  }

  function NameOfParameter(p: Parameter): string { p.name }

  function NameOfDescription(d: Description): string { d.name }

  /** The parameters keyed by their names, as `{p.name: p for p in ps}` sees them. */
  function Keyed(ps: seq<Parameter>): (d: seq<(string, Parameter)>)
    ensures |d| == |ps|
    ensures forall i :: 0 <= i < |ps| ==> d[i] == (ps[i].name, ps[i])
    ensures Keys(d) == NamesOf(ps, NameOfParameter)
  {
    seq(|ps|, i requires 0 <= i < |ps| => (ps[i].name, ps[i]))
  }

  /** The last parameter named `n`. */
  function LastNamed(ps: seq<Parameter>, n: string): (r: Option<Parameter>)
    ensures r.Some? ==> r.value in ps && r.value.name == n
    ensures r.None? <==> n !in NamesOf(ps, NameOfParameter)
  {
    LastValue(Keyed(ps), n)
  }

  // ---------------------------------------------------------------------
  // _override_params

  /** Replace, in a dictionary of parameters, each one that an override
      names; overrides naming no present parameter are ignored. */
  function Replace(d: Dict<Parameter>, overrides: seq<Parameter>): Dict<Parameter>
  {
    if |overrides| == 0 then d
    else
      var d' := Replace(d, overrides[..|overrides| - 1]);
      var o := overrides[|overrides| - 1];
      if HasKey(d', o.name) then Put(d', o.name, o) else d'
  }

  /** `DefaultTargetDescriptor._override_params(params, overrides)`. */
  function OverrideParams(params: seq<Parameter>, overrides: Option<seq<Parameter>>): (r: seq<Parameter>)
    ensures overrides.None? || |overrides.value| == 0 ==> r == params
  {
    if overrides.None? || |overrides.value| == 0 then params
    else ValuesOf(Replace(FromPairs(Keyed(params)), overrides.value))
  }

  /** Replacing never adds, removes or moves a key. */
  lemma {:induction false} ReplaceKeys(d: Dict<Parameter>, overrides: seq<Parameter>)
    requires Distinct(Keys(d))
    ensures Keys(Replace(d, overrides)) == Keys(d)
  {
    if |overrides| > 0 {
      ReplaceKeys(d, overrides[..|overrides| - 1]);
    }
  }

  /** After replacing, a key holds the last override naming it, if any. */
  lemma {:induction false} ReplaceValues(d: Dict<Parameter>, overrides: seq<Parameter>, k: string)
    requires Distinct(Keys(d))
    ensures Get(Replace(d, overrides), k) ==
      if HasKey(d, k) && LastNamed(overrides, k).Some? then LastNamed(overrides, k) else Get(d, k)
  {
    if |overrides| > 0 {
      var pre := overrides[..|overrides| - 1];
      var o := overrides[|overrides| - 1];
      var d' := Replace(d, pre);
      ReplaceKeys(d, pre);
      ReplaceValues(d, pre, k);
      assert Keyed(pre) == Keyed(overrides)[..|overrides| - 1];
      assert LastNamed(overrides, k) == if o.name == k then Some(o) else LastNamed(pre, k);
      if HasKey(d', o.name) {
        PutSpec(d', o.name, o);
      }
    }
  }

  /** What `_override_params` returns for a non-empty list of overrides:
      each name of `params` once, in the order of first appearance, holding
      the last parameter of that name among `params` followed by
      `overrides` — that is, its last override when there is one. */
  lemma OverrideParamsSpec(params: seq<Parameter>, overrides: seq<Parameter>)
    requires |overrides| > 0
    ensures var r := OverrideParams(params, Some(overrides));
      && Distinct(NamesOf(r, NameOfParameter))
      && (forall n :: n in NamesOf(r, NameOfParameter) <==> n in NamesOf(params, NameOfParameter))
      && (forall i, j :: 0 <= i < j < |r| ==> FirstAt(NamesOf(params, NameOfParameter), r[i].name) < FirstAt(NamesOf(params, NameOfParameter), r[j].name))
      && (forall i :: 0 <= i < |r| ==> LastNamed(params + overrides, r[i].name) == Some(r[i]))
  {
    var d0 := FromPairs(Keyed(params));
    var d := Replace(d0, overrides);
    var r := OverrideParams(params, Some(overrides));
    FromPairsKeys(Keyed(params));
    FromPairsOrder(Keyed(params));
    ReplaceKeys(d0, overrides);
    forall i | 0 <= i < |r|
      ensures r[i].name == d[i].0 && LastNamed(params + overrides, r[i].name) == Some(r[i])
    {
      OverriddenEntry(params, overrides, i);
    }
    assert NamesOf(r, NameOfParameter) == Keys(d);
  }

  /** One entry of the result of `_override_params`. */
  lemma OverriddenEntry(params: seq<Parameter>, overrides: seq<Parameter>, i: nat)
    requires i < |Replace(FromPairs(Keyed(params)), overrides)|
    ensures var d := Replace(FromPairs(Keyed(params)), overrides);
      LastNamed(params + overrides, d[i].0) == Some(d[i].1)
  {
    var d0 := FromPairs(Keyed(params));
    var d := Replace(d0, overrides);
    FromPairsKeys(Keyed(params));
    ReplaceKeys(d0, overrides);
    assert Keys(d)[i] == d[i].0 && Keys(d0)[i] == d[i].0;
    FindAt(d, i);
    OverriddenValue(params, overrides, d[i].0);
  }

  lemma KeyedAppend(a: seq<Parameter>, b: seq<Parameter>)
    ensures Keyed(a + b) == Keyed(a) + Keyed(b)
  {
    assert forall i :: 0 <= i < |a| + |b| ==> Keyed(a + b)[i] == (Keyed(a) + Keyed(b))[i];
  }

  /** Keying a list of parameters by name holds the last of each name. */
  lemma KeyedLookup(params: seq<Parameter>, k: string)
    requires k in NamesOf(params, NameOfParameter)
    ensures var d0 := FromPairs(Keyed(params));
      Distinct(Keys(d0)) && HasKey(d0, k) && Get(d0, k) == LastNamed(params, k)
  {
    FromPairsKeys(Keyed(params));
    FromPairsValues(Keyed(params));
  }

  lemma OverriddenValue(params: seq<Parameter>, overrides: seq<Parameter>, k: string)
    requires k in NamesOf(params, NameOfParameter)
    ensures Get(Replace(FromPairs(Keyed(params)), overrides), k) == LastNamed(params + overrides, k)
  {
    var d0 := FromPairs(Keyed(params));
    KeyedLookup(params, k);
    ReplaceValues(d0, overrides, k);
    KeyedAppend(params, overrides);
    LastValueAppend(Keyed(params), Keyed(overrides), k);
  }

  /** For parameters with distinct names (as every shipped list but one
      has), `_override_params` keeps the list's shape and replaces each
      parameter by its last override, if any. */
  lemma OverrideKeepsShape(params: seq<Parameter>, overrides: seq<Parameter>)
    requires Distinct(NamesOf(params, NameOfParameter))
    ensures var r := OverrideParams(params, Some(overrides));
      && NamesOf(r, NameOfParameter) == NamesOf(params, NameOfParameter)
      && forall i :: 0 <= i < |r| ==> r[i] == LastNamed(overrides, params[i].name).GetOr(params[i])
  {
    if |overrides| > 0 {
      var d0 := FromPairs(Keyed(params));
      FromDistinctPairs(Keyed(params));
      ReplaceKeys(d0, overrides);
      var d := Replace(d0, overrides);
      var r := OverrideParams(params, Some(overrides));
      forall i | 0 <= i < |r|
        ensures r[i] == LastNamed(overrides, params[i].name).GetOr(params[i])
      {
        var k := params[i].name;
        assert Keys(d)[i] == k && Keys(d0)[i] == k;
        FindAt(d, i);
        FindAt(d0, i);
        ReplaceValues(d0, overrides, k);
      }
      assert NamesOf(r, NameOfParameter) == Keys(d);
    }
  }

  // ---------------------------------------------------------------------
  // TargetDescription.get_default_config

  /** Every parameter list of a description, in the order the default
      configuration visits them. */
  function AllParams(d: Description): seq<Parameter> {
    d.targetParams + d.platformParams + d.connParams + d.assistantParams
  }

  /** The assignments `config[p.name] = p.default` made for the
      non-deprecated parameters, in order. */
  function DefaultAssignments(ps: seq<Parameter>): seq<(string, Value)> {
    if |ps| == 0 then []
    else
      var pre := DefaultAssignments(ps[..|ps| - 1]);
      var p := ps[|ps| - 1];
      if p.deprecated then pre else pre + [(p.name, p.default)]
  }

  /** `get_default_config()`. */
  function GetDefaultConfig(d: Description): (config: Dict<Value>)
    ensures Distinct(Keys(config))
  {
    FromPairsKeys(DefaultAssignments(AllParams(d)));
    FromPairs(DefaultAssignments(AllParams(d)))
  }

  /** A live parameter: one that is not deprecated. */
  predicate Live(p: Parameter) {
    !p.deprecated
  }

  /** A name is assigned exactly when some live parameter has it. */
  lemma {:induction false} DefaultAssignmentsKeys(ps: seq<Parameter>, k: string)
    ensures LastValue(DefaultAssignments(ps), k).None? <==>
      forall i :: 0 <= i < |ps| && ps[i].name == k ==> !Live(ps[i])
  {
    if |ps| > 0 {
      var pre := ps[..|ps| - 1];
      var p := ps[|ps| - 1];
      DefaultAssignmentsKeys(pre, k);
      assert forall i :: 0 <= i < |pre| ==> pre[i] == ps[i];
      if !Live(p) {
        assert DefaultAssignments(ps) == DefaultAssignments(pre);
      } else if p.name == k {
        assert LastValue(DefaultAssignments(ps), k) == Some(p.default);
      } else {
        assert LastValue(DefaultAssignments(ps), k) == LastValue(DefaultAssignments(pre), k);
      }
    }
  }

  /** The value assigned to a name last is the default of the last live
      parameter with that name. */
  lemma {:induction false} DefaultAssignmentsValues(ps: seq<Parameter>, k: string)
    ensures LastValue(DefaultAssignments(ps), k).Some? ==>
      exists i :: 0 <= i < |ps| && ps[i].name == k && Live(ps[i])
        && ps[i].default == LastValue(DefaultAssignments(ps), k).value
        && forall j :: i < j < |ps| && ps[j].name == k ==> !Live(ps[j])
  {
    if |ps| > 0 {
      var pre := ps[..|ps| - 1];
      var p := ps[|ps| - 1];
      var last := |ps| - 1;
      DefaultAssignmentsValues(pre, k);
      assert forall i :: 0 <= i < |pre| ==> pre[i] == ps[i];
      if !Live(p) {
        assert DefaultAssignments(ps) == DefaultAssignments(pre);
      } else if p.name == k {
        assert LastValue(DefaultAssignments(ps), k) == Some(p.default);
        assert ps[last].name == k && Live(ps[last]) && ps[last].default == p.default;
      } else {
        assert LastValue(DefaultAssignments(ps), k) == LastValue(DefaultAssignments(pre), k);
      }
    }
  }

  /** The default configuration holds exactly the names of the live
      parameters of the four lists, each with the default of the last live
      parameter of that name. */
  lemma DefaultConfigSpec(d: Description, k: string)
    ensures var all := AllParams(d);
      && (HasKey(GetDefaultConfig(d), k) <==> exists i :: 0 <= i < |all| && all[i].name == k && Live(all[i]))
      && (HasKey(GetDefaultConfig(d), k) ==>
        exists i :: 0 <= i < |all| && all[i].name == k && Live(all[i])
          && Get(GetDefaultConfig(d), k) == Some(all[i].default)
          && forall j :: i < j < |all| && all[j].name == k ==> !Live(all[j]))
  {
    FromPairsValues(DefaultAssignments(AllParams(d)));
    DefaultAssignmentsKeys(AllParams(d), k);
    DefaultAssignmentsValues(AllParams(d), k);
  }

  // ---------------------------------------------------------------------
  // list_target_descriptions / get_target_description

  /** A target descriptor: its name and the descriptions it produces. */
  datatype Descriptor = Descriptor(name: string, descriptions: seq<Description>)

  /** Every description in the order the loader's descriptors produce them. */
  function Produced(descriptors: seq<Descriptor>): seq<Description> {
    if |descriptors| == 0 then []
    else Produced(descriptors[..|descriptors| - 1]) + descriptors[|descriptors| - 1].descriptions
  }

  /** The loop of `list_target_descriptions` over the descriptions of one
      descriptor, on top of those collected so far. */
  function Collect(seen: seq<Description>, owner: string, ds: seq<Description>): (r: Result<seq<Description>, DescriptorError>)
    ensures r.Ok? ==> r.value == seen + ds
  {
    if |ds| == 0 then Ok(seen)
    else
      var collected :- Collect(seen, owner, ds[..|ds| - 1]);
      var d := ds[|ds| - 1];
      var previous := FirstNamed(collected, d.name);
      if previous.Some? then Err(DuplicateTarget(d.name, collected[previous.value].source, owner))
      else
        assert ds == ds[..|ds| - 1] + [d];
        Ok(collected + [d])
  }

  /** `list_target_descriptions(loader)`. */
  function ListTargetDescriptions(descriptors: seq<Descriptor>): (r: Result<seq<Description>, DescriptorError>)
    ensures r.Ok? ==> r.value == Produced(descriptors)
    ensures r.Err? ==> r.error.DuplicateTarget?
  {
    if |descriptors| == 0 then Ok([])
    else
      var collected :- ListTargetDescriptions(descriptors[..|descriptors| - 1]);
      var last := descriptors[|descriptors| - 1];
      CollectError(collected, last.name, last.descriptions);
      Collect(collected, last.name, last.descriptions)
  }

  lemma {:induction false} CollectError(seen: seq<Description>, owner: string, ds: seq<Description>)
    ensures Collect(seen, owner, ds).Err? ==> Collect(seen, owner, ds).error.DuplicateTarget?
  {
    if |ds| > 0 {
      CollectError(seen, owner, ds[..|ds| - 1]);
    }
  }

  /** Position of the first description called `n`. */
  function FirstNamed(ds: seq<Description>, n: string): (r: Option<nat>)
    ensures r.Some? ==> r.value < |ds| && ds[r.value].name == n
    ensures r.Some? ==> forall j :: 0 <= j < r.value ==> ds[j].name != n
    ensures r.None? <==> n !in NamesOf(ds, NameOfDescription)
  {
    if |ds| == 0 then None
    else if ds[0].name == n then Some(0)
    else match FirstNamed(ds[1..], n)
      case None => None
      case Some(i) => Some(i + 1)
  }

  /** Collecting one descriptor's descriptions fails exactly when a name
      repeats; otherwise the collected names stay distinct. */
  lemma {:induction false} CollectSpec(seen: seq<Description>, owner: string, ds: seq<Description>)
    requires Distinct(NamesOf(seen, NameOfDescription))
    ensures Collect(seen, owner, ds).Ok? <==> Distinct(NamesOf(seen + ds, NameOfDescription))
  {
    if |ds| > 0 {
      var pre := ds[..|ds| - 1];
      var d := ds[|ds| - 1];
      CollectSpec(seen, owner, pre);
      var all := seen + ds;
      assert all[..|all| - 1] == seen + pre && all[|all| - 1] == d;
      DescriptionNamesSnoc(all);
      DistinctSnoc(NamesOf(all, NameOfDescription));
      if Collect(seen, owner, pre).Ok? {
        assert Collect(seen, owner, ds).Ok? <==> FirstNamed(seen + pre, d.name).None?;
      }
    }
  }

  /** The names of descriptions with one more at the end. */
  lemma DescriptionNamesSnoc(ds: seq<Description>)
    requires |ds| > 0
    ensures NamesOf(ds, NameOfDescription) == NamesOf(ds[..|ds| - 1], NameOfDescription) + [ds[|ds| - 1].name]
    ensures NamesOf(ds, NameOfDescription)[..|ds| - 1] == NamesOf(ds[..|ds| - 1], NameOfDescription)
  {
    assert NamesOf(ds, NameOfDescription) == NamesOf(ds[..|ds| - 1], NameOfDescription) + [ds[|ds| - 1].name];
  }

  /** `list_target_descriptions` succeeds exactly when the descriptors'
      descriptions have pairwise distinct names, and then returns all of
      them in the order they were produced. */
  lemma {:induction false} ListTargetDescriptionsSpec(descriptors: seq<Descriptor>)
    ensures ListTargetDescriptions(descriptors).Ok? <==> Distinct(NamesOf(Produced(descriptors), NameOfDescription))
  {
    if |descriptors| > 0 {
      var pre := descriptors[..|descriptors| - 1];
      var last := descriptors[|descriptors| - 1];
      ListTargetDescriptionsSpec(pre);
      var all := Produced(descriptors);
      assert all == Produced(pre) + last.descriptions;
      assert NamesOf(Produced(pre), NameOfDescription) == NamesOf(all, NameOfDescription)[..|Produced(pre)|];
      if ListTargetDescriptions(pre).Ok? {
        CollectSpec(Produced(pre), last.name, last.descriptions);
      } else {
        var i, j :| 0 <= i < j < |Produced(pre)| && NamesOf(Produced(pre), NameOfDescription)[i] == NamesOf(Produced(pre), NameOfDescription)[j];
        assert NamesOf(all, NameOfDescription)[i] == NamesOf(all, NameOfDescription)[j];
      }
    }
  }

  /** `get_target_description(name, loader)`. */
  function GetTargetDescription(name: string, descriptors: seq<Descriptor>): (r: Result<Description, DescriptorError>)
    ensures r.Ok? ==> r.value.name == name && r.value in Produced(descriptors)
    ensures r.Err? && ListTargetDescriptions(descriptors).Ok? ==>
      r.error == UnknownTarget(name) && name !in NamesOf(Produced(descriptors), NameOfDescription)
  {
    var all :- ListTargetDescriptions(descriptors);
    match FirstNamed(all, name)
    case Some(i) => Ok(all[i])
    case None => Err(UnknownTarget(name))
  }

  /** Whenever the lookup succeeds, the description it returns is the only
      one of that name. */
  lemma FoundDescriptionIsUnique(name: string, descriptors: seq<Descriptor>, other: Description)
    requires GetTargetDescription(name, descriptors).Ok?
    requires other in Produced(descriptors) && other.name == name
    ensures GetTargetDescription(name, descriptors).value == other
  {
    var all := Produced(descriptors);
    ListTargetDescriptionsSpec(descriptors);
    var i := FirstNamed(all, name).value;
    var j :| 0 <= j < |all| && all[j] == other;
    assert NamesOf(all, NameOfDescription)[i] == NamesOf(all, NameOfDescription)[j];
  }
}
