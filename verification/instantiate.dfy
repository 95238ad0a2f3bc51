/** Turning a target description and user-supplied parameters into the
    arguments of the target, platform and assistant constructors
    (`instantiate_target` and `instantiate_assistant` in
    wa/framework/target/descriptor.py). The constructors themselves are
    not modelled: the result is the call that would be made. */
module Instantiation {
  import opened Wrappers
  import opened Dicts
  import opened Values
  import opened Descriptors

  // ---------------------------------------------------------------------
  // Configuration point maps

  /** The keys a parameter answers to: its name, then its aliases. */
  function PointPairs(ps: seq<Parameter>): (pairs: seq<(string, Parameter)>)
    ensures forall i :: 0 <= i < |pairs| ==>
      pairs[i].1 in ps && (pairs[i].0 == pairs[i].1.name || pairs[i].0 in pairs[i].1.aliases)
  {
    if |ps| == 0 then []
    else
      var p := ps[|ps| - 1];
      PointPairs(ps[..|ps| - 1]) + [(p.name, p)] + seq(|p.aliases|, i requires 0 <= i < |p.aliases| => (p.aliases[i], p))
  }

  /** `get_config_point_map(ps)`: every name and alias mapped to its
      parameter, a later parameter overwriting an earlier one. */
  function PointMap(ps: seq<Parameter>): (m: Dict<Parameter>)
    ensures Distinct(Keys(m))
  {
    FromPairsKeys(PointPairs(ps));
    FromPairs(PointPairs(ps))
  }

  /** The four maps of a description. */
  datatype PointMaps = PointMaps(target: Dict<Parameter>, platform: Dict<Parameter>, conn: Dict<Parameter>, assistant: Dict<Parameter>)

  function MapsOf(d: Description): PointMaps {
    PointMaps(PointMap(d.targetParams), PointMap(d.platformParams), PointMap(d.connParams), PointMap(d.assistantParams))
  }

  // ---------------------------------------------------------------------
  // Pre-seeded defaults

  /** The keyword arguments pre-seeded from a map: a key whose parameter
      has a truthy default and is that parameter's own name. */
  function Seed(m: Dict<Parameter>): Dict<Value> {
    if |m| == 0 then []
    else
      var pre := Seed(m[..|m| - 1]);
      var (k, p) := m[|m| - 1];
      if Truthy(p.default) && k == p.name then Put(pre, k, p.default) else pre
  }

  /** A key is seeded, with its parameter's default, exactly when the map
      has it under the parameter's own name and the default is truthy: an
      alias key is never seeded. */
  lemma {:induction false} SeedSpec(m: Dict<Parameter>, k: string)
    requires Distinct(Keys(m))
    ensures Distinct(Keys(Seed(m)))
    ensures Get(Seed(m), k) ==
      if HasKey(m, k) && Get(m, k).value.name == k && Truthy(Get(m, k).value.default)
      then Some(Get(m, k).value.default) else None
  {
    if |m| > 0 {
      var pre := m[..|m| - 1];
      var (k', p) := m[|m| - 1];
      assert Keys(pre) == Keys(m)[..|m| - 1];
      assert m == pre + [(k', p)];
      assert k' !in Keys(pre);
      SeedSpec(pre, k);
      SeedSpec(pre, k');
      GetSnoc(pre, k', p, k);
      if Truthy(p.default) && k' == p.name {
        PutSpec(Seed(pre), k', p.default);
      }
    }
  }

  // ---------------------------------------------------------------------
  // Routing the supplied parameters

  /** Where `instantiate_target` sends a supplied parameter. */
  datatype Destination = ToTarget | ToPlatform | ToConnection | Dropped | Ignored | Unknown

  /** The first map that knows the name decides; a deprecated parameter is
      dropped, an assistant-only one ignored. */
  function DestinationOf(maps: PointMaps, k: string): (r: Destination)
    ensures r == Unknown <==>
      !HasKey(maps.target, k) && !HasKey(maps.platform, k) && !HasKey(maps.conn, k) && !HasKey(maps.assistant, k)
    ensures r == ToTarget ==> HasKey(maps.target, k) && !Get(maps.target, k).value.deprecated
    ensures r == ToPlatform ==> !HasKey(maps.target, k) && HasKey(maps.platform, k)
    ensures r == ToConnection ==> !HasKey(maps.target, k) && !HasKey(maps.platform, k) && HasKey(maps.conn, k)
  {
    if HasKey(maps.target, k) then
      if Get(maps.target, k).value.deprecated then Dropped else ToTarget
    else if HasKey(maps.platform, k) then
      if Get(maps.platform, k).value.deprecated then Dropped else ToPlatform
    else if HasKey(maps.conn, k) then
      if Get(maps.conn, k).value.deprecated then Dropped else ToConnection
    else if HasKey(maps.assistant, k) then Ignored
    else Unknown
  }

  /** The keyword arguments collected for the target, the platform and the
      connection. */
  datatype Routed = Routed(target: Dict<Value>, platform: Dict<Value>, conn: Dict<Value>)

  /** One pass of the routing loop: the supplied value goes to its
      destination; an unknown name raises. */
  function RouteOne(maps: PointMaps, routed: Routed, owner: string, k: string, v: Value): (r: Result<Routed, DescriptorError>)
    ensures r.Err? <==> DestinationOf(maps, k) == Unknown
    ensures r.Err? ==> r.error == UnexpectedParameter(owner, k)
  {
    match DestinationOf(maps, k)
    case ToTarget => Ok(routed.(target := Put(routed.target, k, v)))
    case ToPlatform => Ok(routed.(platform := Put(routed.platform, k, v)))
    case ToConnection => Ok(routed.(conn := Put(routed.conn, k, v)))
    case Dropped => Ok(routed)
    case Ignored => Ok(routed)
    case Unknown => Err(UnexpectedParameter(owner, k))
  }

  /** The loop over the supplied parameters, in their order. */
  function Route(maps: PointMaps, start: Routed, owner: string, params: Dict<Value>): (r: Result<Routed, DescriptorError>)
    ensures r.Err? ==> r.error.UnexpectedParameter? && r.error.target == owner
  {
    if |params| == 0 then Ok(start)
    else
      var routed :- Route(maps, start, owner, params[..|params| - 1]);
      RouteOne(maps, routed, owner, params[|params| - 1].0, params[|params| - 1].1)
  }

  /** Every supplied name is known to one of the four maps. */
  ghost predicate AllKnown(maps: PointMaps, params: Dict<Value>) {
    forall i :: 0 <= i < |params| ==> DestinationOf(maps, params[i].0) != Unknown
  }

  lemma AllKnownSnoc(maps: PointMaps, params: Dict<Value>)
    requires |params| > 0
    ensures AllKnown(maps, params) <==>
      AllKnown(maps, params[..|params| - 1]) && DestinationOf(maps, params[|params| - 1].0) != Unknown
  {
    var pre := params[..|params| - 1];
    if AllKnown(maps, params) {
      forall i | 0 <= i < |pre|
        ensures DestinationOf(maps, pre[i].0) != Unknown
      {
        assert pre[i] == params[i];
      }
    }
    if AllKnown(maps, pre) && DestinationOf(maps, params[|params| - 1].0) != Unknown {
      forall i | 0 <= i < |params|
        ensures DestinationOf(maps, params[i].0) != Unknown
      {
        if i < |pre| {
          assert params[i] == pre[i];
        }
      }
    }
  }

  lemma {:induction false} RouteOkIffKnown(maps: PointMaps, start: Routed, owner: string, params: Dict<Value>)
    ensures Route(maps, start, owner, params).Ok? <==> AllKnown(maps, params)
  {
    if |params| > 0 {
      var pre := params[..|params| - 1];
      var last := |params| - 1;
      RouteOkIffKnown(maps, start, owner, pre);
      AllKnownSnoc(maps, params);
      if Route(maps, start, owner, pre).Ok? {
        var routed := Route(maps, start, owner, pre).value;
        assert Route(maps, start, owner, params) == RouteOne(maps, routed, owner, params[last].0, params[last].1);
      }
    }
  }

  lemma {:induction false} RouteErrNamesFirst(maps: PointMaps, start: Routed, owner: string, params: Dict<Value>)
    requires Route(maps, start, owner, params).Err?
    ensures exists i ::
              && 0 <= i < |params| && DestinationOf(maps, params[i].0) == Unknown
              && Route(maps, start, owner, params).error == UnexpectedParameter(owner, params[i].0)
              && AllKnown(maps, params[..i])
  {
    if |params| > 0 {
      var pre := params[..|params| - 1];
      var last := |params| - 1;
      if Route(maps, start, owner, pre).Err? {
        assert Route(maps, start, owner, params) == Route(maps, start, owner, pre);
        RouteErrNamesFirst(maps, start, owner, pre);
        var i :| 0 <= i < |pre| && DestinationOf(maps, pre[i].0) == Unknown &&
          Route(maps, start, owner, pre).error == UnexpectedParameter(owner, pre[i].0) &&
          AllKnown(maps, pre[..i]);
        assert pre[..i] == params[..i] && pre[i] == params[i];
        assert DestinationOf(maps, params[i].0) == Unknown &&
          Route(maps, start, owner, params).error == UnexpectedParameter(owner, params[i].0) &&
          AllKnown(maps, params[..i]);
      } else {
        RouteOkIffKnown(maps, start, owner, pre);
        var routed := Route(maps, start, owner, pre).value;
        assert Route(maps, start, owner, params) == RouteOne(maps, routed, owner, params[last].0, params[last].1);
        assert params[..last] == pre;
        assert DestinationOf(maps, params[last].0) == Unknown &&
          Route(maps, start, owner, params).error == UnexpectedParameter(owner, params[last].0) &&
          AllKnown(maps, params[..last]);
      }
    }
  }

  /** Routing fails exactly when some supplied name is known to none of the
      four maps, and then it names the first such parameter. */
  lemma RouteFails(maps: PointMaps, start: Routed, owner: string, params: Dict<Value>)
    ensures Route(maps, start, owner, params).Err? <==>
      exists i :: 0 <= i < |params| && DestinationOf(maps, params[i].0) == Unknown
    ensures Route(maps, start, owner, params).Err? ==>
      exists i :: 0 <= i < |params| && DestinationOf(maps, params[i].0) == Unknown
        && Route(maps, start, owner, params).error == UnexpectedParameter(owner, params[i].0)
        && forall j :: 0 <= j < i ==> DestinationOf(maps, params[j].0) != Unknown
  {
    RouteOkIffKnown(maps, start, owner, params);
    if Route(maps, start, owner, params).Err? {
      RouteErrNamesFirst(maps, start, owner, params);
      var i :| 0 <= i < |params| && DestinationOf(maps, params[i].0) == Unknown &&
        Route(maps, start, owner, params).error == UnexpectedParameter(owner, params[i].0) &&
        AllKnown(maps, params[..i]);
      assert forall j :: 0 <= j < i ==> params[..i][j] == params[j];
    }
  }

  /** The loop's last pass, after the earlier ones succeeded. */
  lemma RouteLast(maps: PointMaps, start: Routed, owner: string, params: Dict<Value>)
    requires |params| > 0 && Route(maps, start, owner, params).Ok?
    ensures Route(maps, start, owner, params[..|params| - 1]).Ok?
    ensures Route(maps, start, owner, params) ==
      RouteOne(maps, Route(maps, start, owner, params[..|params| - 1]).value, owner, params[|params| - 1].0, params[|params| - 1].1)
  {
  }

  /** One pass changes, in each map, at most the name it routes. */
  lemma RouteOneValues(maps: PointMaps, routed: Routed, owner: string, k': string, v: Value, k: string)
    requires Distinct(Keys(routed.target)) && Distinct(Keys(routed.platform)) && Distinct(Keys(routed.conn))
    requires RouteOne(maps, routed, owner, k', v).Ok?
    ensures var r := RouteOne(maps, routed, owner, k', v).value;
      && Distinct(Keys(r.target)) && Distinct(Keys(r.platform)) && Distinct(Keys(r.conn))
      && Get(r.target, k) == (if k == k' && DestinationOf(maps, k) == ToTarget then Some(v) else Get(routed.target, k))
      && Get(r.platform, k) == (if k == k' && DestinationOf(maps, k) == ToPlatform then Some(v) else Get(routed.platform, k))
      && Get(r.conn, k) == (if k == k' && DestinationOf(maps, k) == ToConnection then Some(v) else Get(routed.conn, k))
  {
    match DestinationOf(maps, k')
    case ToTarget => PutSpec(routed.target, k', v);
    case ToPlatform => PutSpec(routed.platform, k', v);
    case ToConnection => PutSpec(routed.conn, k', v);
    case Dropped =>
    case Ignored =>
  }

  /** Given the same seeds, routing the supplied parameters changes, in
      each map, exactly the names sent there: they get the supplied value,
      and every other key keeps its seed. */
  lemma {:induction false} RouteValues(maps: PointMaps, start: Routed, owner: string, params: Dict<Value>, k: string)
    requires Distinct(Keys(params))
    requires Distinct(Keys(start.target)) && Distinct(Keys(start.platform)) && Distinct(Keys(start.conn))
    requires Route(maps, start, owner, params).Ok?
    ensures var r := Route(maps, start, owner, params).value;
      && Distinct(Keys(r.target)) && Distinct(Keys(r.platform)) && Distinct(Keys(r.conn))
      && Get(r.target, k) == (if HasKey(params, k) && DestinationOf(maps, k) == ToTarget then Get(params, k) else Get(start.target, k))
      && Get(r.platform, k) == (if HasKey(params, k) && DestinationOf(maps, k) == ToPlatform then Get(params, k) else Get(start.platform, k))
      && Get(r.conn, k) == (if HasKey(params, k) && DestinationOf(maps, k) == ToConnection then Get(params, k) else Get(start.conn, k))
  {
    if |params| > 0 {
      var pre := params[..|params| - 1];
      var (k', v) := params[|params| - 1];
      DistinctInit(params);
      KeysSnoc(params);
      RouteLast(maps, start, owner, params);
      RouteValues(maps, start, owner, pre, k);
      RouteOneValues(maps, Route(maps, start, owner, pre).value, owner, k', v, k);
      GetSnoc(pre, k', v, k);
    }
  }

  // ---------------------------------------------------------------------
  // Extra platform parameters

  /** The loop over `extra_platform_params`: each must be new. */
  function AddExtra(pp: Dict<Value>, extra: Dict<Value>): (r: Result<Dict<Value>, DescriptorError>)
    ensures r.Err? ==> r.error.PlatformClash?
  {
    if |extra| == 0 then Ok(pp)
    else
      var added :- AddExtra(pp, extra[..|extra| - 1]);
      var (k, v) := extra[|extra| - 1];
      if HasKey(added, k) then Err(PlatformClash(k)) else Ok(Put(added, k, v))
  }

  /** No extra parameter is already a platform argument. */
  ghost predicate NoClash(pp: Dict<Value>, extra: Dict<Value>) {
    forall i :: 0 <= i < |extra| ==> extra[i].0 !in Keys(pp)
  }

  lemma NoClashSnoc(pp: Dict<Value>, extra: Dict<Value>)
    requires |extra| > 0
    ensures NoClash(pp, extra) <==> NoClash(pp, extra[..|extra| - 1]) && extra[|extra| - 1].0 !in Keys(pp)
  {
    var pre := extra[..|extra| - 1];
    if NoClash(pp, extra) {
      forall i | 0 <= i < |pre|
        ensures pre[i].0 !in Keys(pp)
      {
        assert pre[i] == extra[i];
      }
    }
    if NoClash(pp, pre) && extra[|extra| - 1].0 !in Keys(pp) {
      forall i | 0 <= i < |extra|
        ensures extra[i].0 !in Keys(pp)
      {
        if i < |pre| {
          assert extra[i] == pre[i];
        }
      }
    }
  }

  /** The loop's last iteration, after the earlier ones succeeded. */
  lemma AddExtraLast(pp: Dict<Value>, extra: Dict<Value>)
    requires |extra| > 0 && AddExtra(pp, extra[..|extra| - 1]).Ok?
    ensures var added := AddExtra(pp, extra[..|extra| - 1]).value;
      var (k, v) := extra[|extra| - 1];
      AddExtra(pp, extra) == if HasKey(added, k) then Err(PlatformClash(k)) else Ok(Put(added, k, v))
  {
  }

  /** The last step of the loop, once the earlier extras were appended. */
  lemma AddExtraStep(pp: Dict<Value>, extra: Dict<Value>)
    requires |extra| > 0
    requires AddExtra(pp, extra[..|extra| - 1]) == Ok(pp + extra[..|extra| - 1])
    requires extra[|extra| - 1].0 !in Keys(extra[..|extra| - 1])
    ensures var k := extra[|extra| - 1].0;
      AddExtra(pp, extra) == if k in Keys(pp) then Err(PlatformClash(k)) else Ok(pp + extra)
  {
    var pre := extra[..|extra| - 1];
    var (k, v) := extra[|extra| - 1];
    var added := pp + pre;
    AddExtraLast(pp, extra);
    assert HasKey(added, k) <==> k in Keys(pp) by {
      KeysAppend(pp, pre);
    }
    if k !in Keys(pp) {
      assert Put(added, k, v) == pp + extra by {
        PutNew(added, k, v);
        assert extra == pre + [(k, v)];
      }
    }
  }

  /** Adding distinct extras succeeds exactly when none clashes, and then
      appends them. */
  lemma {:induction false} AddExtraOk(pp: Dict<Value>, extra: Dict<Value>)
    requires Distinct(Keys(extra))
    ensures AddExtra(pp, extra).Ok? <==> NoClash(pp, extra)
    ensures AddExtra(pp, extra).Ok? ==> AddExtra(pp, extra).value == pp + extra
  {
    if |extra| > 0 {
      var pre := extra[..|extra| - 1];
      DistinctInit(extra);
      AddExtraOk(pp, pre);
      NoClashSnoc(pp, extra);
      if AddExtra(pp, pre).Ok? {
        AddExtraStep(pp, extra);
      }
    }
  }

  /** A clash names a parameter that is both a platform argument and an
      extra. */
  lemma {:induction false} AddExtraClash(pp: Dict<Value>, extra: Dict<Value>)
    requires Distinct(Keys(extra))
    ensures AddExtra(pp, extra).Err? ==>
      AddExtra(pp, extra).error.name in Keys(pp) && AddExtra(pp, extra).error.name in Keys(extra)
  {
    if |extra| > 0 {
      var pre := extra[..|extra| - 1];
      DistinctInit(extra);
      KeysSnoc(extra);
      if AddExtra(pp, pre).Err? {
        AddExtraClash(pp, pre);
        assert AddExtra(pp, extra) == AddExtra(pp, pre);
      } else {
        AddExtraOk(pp, pre);
        AddExtraStep(pp, extra);
      }
    }
  }

  /** Extra platform parameters are appended when none of them is already
      a platform argument; otherwise a clashing name is reported. */
  lemma AddExtraSpec(pp: Dict<Value>, extra: Dict<Value>)
    requires Distinct(Keys(extra))
    ensures AddExtra(pp, extra).Ok? <==> forall i :: 0 <= i < |extra| ==> extra[i].0 !in Keys(pp)
    ensures AddExtra(pp, extra).Ok? ==> AddExtra(pp, extra).value == pp + extra
    ensures AddExtra(pp, extra).Err? ==> AddExtra(pp, extra).error.name in Keys(pp) && AddExtra(pp, extra).error.name in Keys(extra)
  {
    AddExtraOk(pp, extra);
    AddExtraClash(pp, extra);
  }

  // ---------------------------------------------------------------------
  // instantiate_target

  /** A keyword argument of the target constructor. */
  datatype Argument =
    | Plain(value: Value)
    | PlatformInstance(cls: string, args: Dict<Value>)
    | ConnectionSettings(settings: Dict<Value>)
    | ConnectionClass(cls: string)
    | Connect(connect: bool)

  /** The constructor call `tdesc.target(**tp)`. */
  datatype TargetCall = TargetCall(cls: string, args: Dict<Argument>)

  function AsArguments(d: Dict<Value>): (r: Dict<Argument>)
    ensures Keys(r) == Keys(d)
    ensures forall i :: 0 <= i < |d| ==> r[i] == (d[i].0, Plain(d[i].1))
  {
    seq(|d|, i requires 0 <= i < |d| => (d[i].0, Plain(d[i].1)))
  }

  /** The keys `instantiate_target` sets itself after routing. */
  predicate Reserved(k: string) {
    k == "platform" || k == "connection_settings" || k == "conn_cls" || k == "connect"
  }

  /** The arguments set after routing: the platform instance, the
      connection settings when there are any, the connection class when
      the description names one, and `connect` when given. */
  function Finish(tp: Dict<Argument>, platform: string, pp: Dict<Value>, cp: Dict<Value>,
                  conn: Option<string>, connect: Option<bool>): (r: Dict<Argument>)
  {
    var t1 := Put(tp, "platform", PlatformInstance(platform, pp));
    var t2 := if |cp| > 0 then Put(t1, "connection_settings", ConnectionSettings(cp)) else t1;
    var t3 := if conn.Some? then Put(t2, "conn_cls", ConnectionClass(conn.value)) else t2;
    if connect.Some? then Put(t3, "connect", Connect(connect.value)) else t3
  }

  /** `instantiate_target(tdesc, params, connect, extra_platform_params)`. */
  function InstantiateTarget(d: Description, params: Dict<Value>, connect: Option<bool>,
                             extra: Option<Dict<Value>>): (r: Result<TargetCall, DescriptorError>)
    ensures r.Ok? ==> r.value.cls == d.target
    ensures r.Err? ==> r.error == UnexpectedParameter(d.name, r.error.name) || r.error.PlatformClash?
  {
    var maps := MapsOf(d);
    var start := Routed(Seed(maps.target), Seed(maps.platform), Seed(maps.conn));
    var routed :- Route(maps, start, d.name, params);
    var pp :- AddExtra(routed.platform, extra.GetOr([]));
    Ok(TargetCall(d.target, Finish(AsArguments(routed.target), d.platform.GetOr("Platform"), pp, routed.conn, d.connection, connect)))
  }

  /** The arguments `instantiate_target` adds are what it was given. */
  lemma FinishSpec(tp: Dict<Argument>, platform: string, pp: Dict<Value>, cp: Dict<Value>,
                   conn: Option<string>, connect: Option<bool>, k: string)
    requires Distinct(Keys(tp))
    ensures var r := Finish(tp, platform, pp, cp, conn, connect);
      && Get(r, "platform") == Some(PlatformInstance(platform, pp))
      && (|cp| > 0 ==> Get(r, "connection_settings") == Some(ConnectionSettings(cp)))
      && (conn.Some? ==> Get(r, "conn_cls") == Some(ConnectionClass(conn.value)))
      && (connect.Some? ==> Get(r, "connect") == Some(Connect(connect.value)))
      && (!Reserved(k) ==> Get(r, k) == Get(tp, k))
  {
    var t1 := Put(tp, "platform", PlatformInstance(platform, pp));
    PutSpec(tp, "platform", PlatformInstance(platform, pp));
    var t2 := if |cp| > 0 then Put(t1, "connection_settings", ConnectionSettings(cp)) else t1;
    PutSpec(t1, "connection_settings", ConnectionSettings(cp));
    var t3 := if conn.Some? then Put(t2, "conn_cls", ConnectionClass(conn.GetOr(""))) else t2;
    PutSpec(t2, "conn_cls", ConnectionClass(conn.GetOr("")));
    PutSpec(t3, "connect", Connect(connect.GetOr(false)));
  }

  /** Without a connection class, `conn_cls` keeps whatever the target's
      own arguments gave it. */
  lemma FinishWithoutConnection(tp: Dict<Argument>, platform: string, pp: Dict<Value>, cp: Dict<Value>, connect: Option<bool>)
    requires Distinct(Keys(tp))
    ensures Get(Finish(tp, platform, pp, cp, None, connect), "conn_cls") == Get(tp, "conn_cls")
  {
    var t1 := Put(tp, "platform", PlatformInstance(platform, pp));
    PutSpec(tp, "platform", PlatformInstance(platform, pp));
    assert Get(t1, "conn_cls") == Get(tp, "conn_cls");
    var t2 := if |cp| > 0 then Put(t1, "connection_settings", ConnectionSettings(cp)) else t1;
    PutSpec(t1, "connection_settings", ConnectionSettings(cp));
    assert Get(t2, "conn_cls") == Get(tp, "conn_cls");
    PutSpec(t2, "connect", Connect(connect.GetOr(false)));
    assert Finish(tp, platform, pp, cp, None, connect) ==
      if connect.Some? then Put(t2, "connect", Connect(connect.value)) else t2;
  }

  /** The keyword argument the target's own routed parameters give a
      name: the supplied value when the name is routed to the target,
      otherwise the pre-seeded default of a target parameter, if any. */
  function TargetValue(d: Description, params: Dict<Value>, k: string): Option<Argument> {
    var maps := MapsOf(d);
    var expected :=
      if HasKey(params, k) && DestinationOf(maps, k) == ToTarget then Get(params, k)
      else Get(Seed(maps.target), k);
    if expected.Some? then Some(Plain(expected.value)) else None
  }

  lemma RoutedTargetArgument(d: Description, params: Dict<Value>, k: string)
    requires Distinct(Keys(params))
    requires Route(MapsOf(d), Routed(Seed(MapsOf(d).target), Seed(MapsOf(d).platform), Seed(MapsOf(d).conn)), d.name, params).Ok?
    ensures var maps := MapsOf(d);
      var routed := Route(maps, Routed(Seed(maps.target), Seed(maps.platform), Seed(maps.conn)), d.name, params).value;
      Distinct(Keys(routed.target)) && Get(AsArguments(routed.target), k) == TargetValue(d, params, k)
  {
    var maps := MapsOf(d);
    var start := Routed(Seed(maps.target), Seed(maps.platform), Seed(maps.conn));
    SeedSpec(maps.target, k);
    SeedSpec(maps.platform, k);
    SeedSpec(maps.conn, k);
    RouteValues(maps, start, d.name, params, k);
    var routed := Route(maps, start, d.name, params).value;
    var tp := AsArguments(routed.target);
    if HasKey(routed.target, k) {
      var i := Find(routed.target, k).value;
      FindAt(routed.target, i);
      FindAt(tp, i);
    } else {
      assert k !in Keys(tp);
    }
  }

  /** What the target constructor receives for an ordinary (not reserved)
      keyword: the supplied value when the name is routed to the target,
      otherwise the pre-seeded default of a target parameter, if any. */
  lemma TargetArgument(d: Description, params: Dict<Value>, connect: Option<bool>, extra: Option<Dict<Value>>, k: string)
    requires Distinct(Keys(params))
    requires InstantiateTarget(d, params, connect, extra).Ok?
    requires !Reserved(k)
    ensures Get(InstantiateTarget(d, params, connect, extra).value.args, k) == TargetValue(d, params, k)
  {
    var maps := MapsOf(d);
    var start := Routed(Seed(maps.target), Seed(maps.platform), Seed(maps.conn));
    RoutedTargetArgument(d, params, k);
    var routed := Route(maps, start, d.name, params).value;
    var pp := AddExtra(routed.platform, extra.GetOr([])).value;
    FinishSpec(AsArguments(routed.target), d.platform.GetOr("Platform"), pp, routed.conn, d.connection, connect, k);
  }

  /** The connection class the target constructor receives: the class the
      description was constructed with, and otherwise only what a target
      parameter named `conn_cls` would give. The `conn` attribute plays no
      part. */
  lemma ConnectionClassArgument(d: Description, params: Dict<Value>, connect: Option<bool>, extra: Option<Dict<Value>>)
    requires Distinct(Keys(params))
    requires InstantiateTarget(d, params, connect, extra).Ok?
    ensures Get(InstantiateTarget(d, params, connect, extra).value.args, "conn_cls") ==
      if d.connection.Some? then Some(ConnectionClass(d.connection.value)) else TargetValue(d, params, "conn_cls")
  {
    var maps := MapsOf(d);
    var start := Routed(Seed(maps.target), Seed(maps.platform), Seed(maps.conn));
    RoutedTargetArgument(d, params, "conn_cls");
    var routed := Route(maps, start, d.name, params).value;
    var pp := AddExtra(routed.platform, extra.GetOr([])).value;
    FinishSpec(AsArguments(routed.target), d.platform.GetOr("Platform"), pp, routed.conn, d.connection, connect, "conn_cls");
    if d.connection.None? {
      FinishWithoutConnection(AsArguments(routed.target), d.platform.GetOr("Platform"), pp, routed.conn, connect);
    }
  }

  /** A name no target parameter answers to gets nothing from the target's
      routed parameters. */
  lemma NoTargetValue(d: Description, params: Dict<Value>, k: string)
    requires !HasKey(MapsOf(d).target, k)
    ensures TargetValue(d, params, k).None?
  {
    SeedSpec(MapsOf(d).target, k);
  }

  /** The platform constructor receives the routed platform parameters
      (over their seeds) followed by the extra platform parameters. */
  lemma PlatformArguments(d: Description, params: Dict<Value>, connect: Option<bool>, extra: Dict<Value>)
    requires Distinct(Keys(params)) && Distinct(Keys(extra))
    requires InstantiateTarget(d, params, connect, Some(extra)).Ok?
    ensures var maps := MapsOf(d);
      var start := Routed(Seed(maps.target), Seed(maps.platform), Seed(maps.conn));
      var routed := Route(maps, start, d.name, params).value;
      Get(InstantiateTarget(d, params, connect, Some(extra)).value.args, "platform") ==
        Some(PlatformInstance(d.platform.GetOr("Platform"), routed.platform + extra))
  {
    var maps := MapsOf(d);
    var start := Routed(Seed(maps.target), Seed(maps.platform), Seed(maps.conn));
    var routed := Route(maps, start, d.name, params).value;
    assert Distinct(Keys(routed.target)) by {
      SeedSpec(maps.target, "");
      SeedSpec(maps.platform, "");
      SeedSpec(maps.conn, "");
      RouteValues(maps, start, d.name, params, "");
    }
    AddExtraSpec(routed.platform, extra);
    FinishSpec(AsArguments(routed.target), d.platform.GetOr("Platform"), routed.platform + extra, routed.conn, d.connection, connect, "platform");
  }

  /** An alias is never pre-seeded: with nothing supplied, the target
      constructor receives no argument under a name that is only an alias. */
  lemma AliasNotSeeded(d: Description, connect: Option<bool>, alias: string)
    requires !Reserved(alias)
    requires HasKey(MapsOf(d).target, alias) && Get(MapsOf(d).target, alias).value.name != alias
    requires InstantiateTarget(d, [], connect, None).Ok?
    ensures !HasKey(InstantiateTarget(d, [], connect, None).value.args, alias)
  {
    SeedSpec(MapsOf(d).target, alias);
    TargetArgument(d, [], connect, None, alias);
  }

  /** A deprecated target parameter never reaches the constructor with a
      supplied value: it is dropped. */
  lemma DeprecatedDropped(d: Description, params: Dict<Value>, connect: Option<bool>, k: string)
    requires Distinct(Keys(params))
    requires HasKey(MapsOf(d).target, k) && Get(MapsOf(d).target, k).value.deprecated
    requires InstantiateTarget(d, params, connect, None).Ok? && !Reserved(k)
    ensures var seeded := Get(Seed(MapsOf(d).target), k);
      Get(InstantiateTarget(d, params, connect, None).value.args, k) ==
        if seeded.Some? then Some(Plain(seeded.value)) else None
  {
    TargetArgument(d, params, connect, None, k);
  }

  /** An unknown supplied name makes `instantiate_target` raise, naming
      the first such parameter. */
  lemma UnknownRejected(d: Description, params: Dict<Value>, connect: Option<bool>, extra: Option<Dict<Value>>, i: nat)
    requires i < |params| && DestinationOf(MapsOf(d), params[i].0) == Unknown
    ensures InstantiateTarget(d, params, connect, extra).Err?
    ensures InstantiateTarget(d, params, connect, extra).error.UnexpectedParameter?
  {
    var maps := MapsOf(d);
    RouteFails(maps, Routed(Seed(maps.target), Seed(maps.platform), Seed(maps.conn)), d.name, params);
  }

  // ---------------------------------------------------------------------
  // instantiate_assistant

  /** The assistant's keyword arguments: each assistant parameter takes the
      supplied value, or else its default when that is truthy. */
  function AssistantArgs(aps: seq<Parameter>, params: Dict<Value>): Dict<Value> {
    if |aps| == 0 then []
    else
      var pre := AssistantArgs(aps[..|aps| - 1], params);
      var p := aps[|aps| - 1];
      if HasKey(params, p.name) then Put(pre, p.name, Get(params, p.name).value)
      else if Truthy(p.default) then Put(pre, p.name, p.default)
      else pre
  }

  /** `instantiate_assistant(tdesc, params, target)`. */
  function InstantiateAssistant(d: Description, params: Dict<Value>): (r: (string, Dict<Value>))
    ensures r.0 == d.assistant
  {
    (d.assistant, AssistantArgs(d.assistantParams, params))
  }

  /** An assistant parameter is passed on when it was supplied or has a
      truthy default. */
  predicate Passed(p: Parameter, params: Dict<Value>) {
    HasKey(params, p.name) || Truthy(p.default)
  }

  /** The assistant receives exactly its own parameters that are passed
      on, each once. */
  lemma {:induction false} AssistantArgsKeys(aps: seq<Parameter>, params: Dict<Value>, k: string)
    ensures Distinct(Keys(AssistantArgs(aps, params)))
    ensures HasKey(AssistantArgs(aps, params), k) <==>
      exists i :: 0 <= i < |aps| && aps[i].name == k && Passed(aps[i], params)
  {
    if |aps| > 0 {
      var pre := aps[..|aps| - 1];
      var p := aps[|aps| - 1];
      var a := AssistantArgs(pre, params);
      var r := AssistantArgs(aps, params);
      AssistantArgsKeys(pre, params, k);
      assert Distinct(Keys(r)) && (HasKey(r, k) <==> HasKey(a, k) || (p.name == k && Passed(p, params))) by {
        if HasKey(params, p.name) {
          PutSpec(a, p.name, Get(params, p.name).value);
        } else if Truthy(p.default) {
          PutSpec(a, p.name, p.default);
        }
      }
      if HasKey(a, k) {
        var i :| 0 <= i < |pre| && pre[i].name == k && Passed(pre[i], params);
        assert aps[i] == pre[i];
      } else if p.name == k && Passed(p, params) {
        assert aps[|aps| - 1] == p;
      } else {
        forall i | 0 <= i < |aps| && aps[i].name == k
          ensures !Passed(aps[i], params)
        {
          if i < |pre| {
            assert aps[i] == pre[i];
          }
        }
      }
    }
  }

  /** A supplied value wins; otherwise the assistant receives the last
      truthy default of that name. */
  lemma {:induction false} AssistantArgsValues(aps: seq<Parameter>, params: Dict<Value>, k: string)
    ensures HasKey(params, k) && HasKey(AssistantArgs(aps, params), k) ==>
      Get(AssistantArgs(aps, params), k) == Get(params, k)
    ensures !HasKey(params, k) && HasKey(AssistantArgs(aps, params), k) ==>
      exists i :: 0 <= i < |aps| && aps[i].name == k && Truthy(aps[i].default)
        && Get(AssistantArgs(aps, params), k) == Some(aps[i].default)
        && forall j :: i < j < |aps| && aps[j].name == k ==> !Truthy(aps[j].default)
  {
    if |aps| > 0 {
      var pre := aps[..|aps| - 1];
      var p := aps[|aps| - 1];
      var a := AssistantArgs(pre, params);
      var r := AssistantArgs(aps, params);
      AssistantArgsKeys(pre, params, k);
      AssistantArgsValues(pre, params, k);
      AssistantArgsLast(aps, params, k);
      if !HasKey(params, k) && HasKey(r, k) {
        if p.name == k && Truthy(p.default) {
          assert aps[|aps| - 1] == p;
        } else {
          var i :| 0 <= i < |pre| && pre[i].name == k && Truthy(pre[i].default)
            && Get(a, k) == Some(pre[i].default)
            && forall j :: i < j < |pre| && pre[j].name == k ==> !Truthy(pre[j].default);
          assert aps[i] == pre[i];
          forall j | i < j < |aps| && aps[j].name == k
            ensures !Truthy(aps[j].default)
          {
            if j < |pre| {
              assert aps[j] == pre[j];
            }
          }
        }
      }
    }
  }

  /** The last assistant parameter decides its own name and leaves the
      others as the earlier parameters set them. */
  lemma AssistantArgsLast(aps: seq<Parameter>, params: Dict<Value>, k: string)
    requires |aps| > 0
    ensures var pre := aps[..|aps| - 1];
      var p := aps[|aps| - 1];
      Get(AssistantArgs(aps, params), k) ==
        if p.name == k && Passed(p, params) then
          (if HasKey(params, k) then Get(params, k) else Some(p.default))
        else Get(AssistantArgs(pre, params), k)
  {
    var pre := aps[..|aps| - 1];
    var p := aps[|aps| - 1];
    var a := AssistantArgs(pre, params);
    AssistantArgsKeys(pre, params, k);
    if HasKey(params, p.name) {
      PutSpec(a, p.name, Get(params, p.name).value);
    } else if Truthy(p.default) {
      PutSpec(a, p.name, p.default);
    }
  }
}
