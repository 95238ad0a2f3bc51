/** The default target descriptor (`DefaultTargetDescriptor` in
    wa/framework/target/descriptor.py): one description for every target of
    the TARGETS table on every platform of the PLATFORMS table that the
    target supports, named `<platform>_<target>`.

    As written, the loop over platforms reassigns the target's parameter
    list with each platform's target overrides, so the overrides of one
    platform carry into the descriptions of the platforms after it.
    `GetDescriptionsAsWritten` models that loop; `GetDescriptions` applies
    each platform's overrides to the target's own parameters, as the table's
    comment describes them ("for a particular platform"). */
module DefaultDescriptor {
  import opened Wrappers
  import opened Values
  import opened Dicts
  import opened Descriptors
  import Instantiation
  import Text

  /** An entry of TARGETS: the target class, its connection class, the
      platform classes it cannot run on, its parameters and the defaults
      overriding them. */
  datatype TargetEntry = TargetEntry(
    name: string,
    cls: string,
    conn: string,
    unsupported: seq<string>,
    params: seq<Parameter>,
    defaults: Option<seq<Parameter>>)

  /** An entry of PLATFORMS: the platform class, the connection class it
      imposes (if any) with overrides for that connection's parameters, its
      own parameters with their defaults, and overrides for the target's
      parameters. */
  datatype PlatformEntry = PlatformEntry(
    name: string,
    cls: string,
    conn: Option<string>,
    connDefaults: Option<seq<Parameter>>,
    params: seq<Parameter>,
    defaults: Option<seq<Parameter>>,
    targetDefaults: Option<seq<Parameter>>)

  /** The tables looked up by key: CONNECTION_PARAMS by connection class,
      ASSISTANTS by target name, and each assistant class's parameters. */
  datatype Tables = Tables(
    connParams: string -> seq<Parameter>,
    assistant: string -> string,
    assistantParams: string -> seq<Parameter>)

  const DescriptorName: string := "devlib_targets"

  /** `'{}_{}'.format(platform_name, target_name)`. */
  function DescriptionName(platform: string, target: string): string {
    platform + "_" + target
  }

  /** The target's parameters after its own defaults (`_get_item`). */
  function BaseParams(t: TargetEntry): seq<Parameter> {
    OverrideParams(t.params, t.defaults)
  }

  /** The connection class of a target on a platform: the platform's,
      when it names one, replaces the target's. */
  function ConnectionOf(t: TargetEntry, p: PlatformEntry): string {
    if p.conn.Some? then p.conn.value else t.conn
  }

  /** The description of a target on a platform, given the target
      parameters it gets, as written: the description is constructed with
      its name only, so its `connection` stays `None`, and the connection
      class goes to the separate `conn` attribute. */
  function Describe(t: TargetEntry, p: PlatformEntry, targetParams: seq<Parameter>, tables: Tables): (d: Description)
    ensures d.name == DescriptionName(p.name, t.name) && d.source == DescriptorName
    ensures d.target == t.cls && d.platform == Some(p.cls) && d.targetParams == targetParams
    ensures d.connection.None?
    ensures d.conn == Some(ConnectionOf(t, p))
    ensures d.connParams == OverrideParams(tables.connParams(ConnectionOf(t, p)), p.connDefaults)
  {
    var conn := p.conn.GetOr(t.conn);
    Description(
      DescriptionName(p.name, t.name),
      DescriptorName,
      t.cls,
      Some(p.cls),
      None,
      Some(conn),
      tables.assistant(t.name),
      targetParams,
      OverrideParams(p.params, p.defaults),
      OverrideParams(tables.connParams(conn), p.connDefaults),
      tables.assistantParams(tables.assistant(t.name)))
  }

  // ---------------------------------------------------------------------
  // get_descriptions as written

  /** The loop over platforms for one target, as written: `targetParams`
      is the variable the loop keeps reassigning. */
  function PlatformLoopAsWritten(t: TargetEntry, targetParams: seq<Parameter>, platforms: seq<PlatformEntry>, tables: Tables): (ds: seq<Description>)
    ensures |ds| <= |platforms|
    ensures forall i :: 0 <= i < |ds| ==>
      ds[i].source == DescriptorName && ds[i].target == t.cls && ds[i].connection.None? && ds[i].conn.Some?
    decreases |platforms|
  {
    if |platforms| == 0 then []
    else
      var p := platforms[0];
      if p.cls in t.unsupported then PlatformLoopAsWritten(t, targetParams, platforms[1..], tables)
      else
        var carried := OverrideParams(targetParams, p.targetDefaults);
        [Describe(t, p, carried, tables)] + PlatformLoopAsWritten(t, carried, platforms[1..], tables)
  }

  /** `DefaultTargetDescriptor.get_descriptions()` as written. */
  function GetDescriptionsAsWritten(targets: seq<TargetEntry>, platforms: seq<PlatformEntry>, tables: Tables): (ds: seq<Description>)
    ensures forall i :: 0 <= i < |ds| ==> ds[i].source == DescriptorName && ds[i].connection.None? && ds[i].conn.Some?
  {
    if |targets| == 0 then []
    else
      var t := targets[0];
      PlatformLoopAsWritten(t, BaseParams(t), platforms, tables) + GetDescriptionsAsWritten(targets[1..], platforms, tables)
  }

  // ---------------------------------------------------------------------
  // get_descriptions with per-platform overrides

  /** The description of a target on a platform, corrected: that
      platform's target overrides apply to the target's own parameters, and
      the connection class is also the one `instantiate_target` reads. */
  function DescribeFor(t: TargetEntry, p: PlatformEntry, tables: Tables): (d: Description)
    ensures d.name == DescriptionName(p.name, t.name)
    ensures d.targetParams == OverrideParams(BaseParams(t), p.targetDefaults)
    ensures d.connection == d.conn == Some(ConnectionOf(t, p))
    ensures d.connParams == OverrideParams(tables.connParams(ConnectionOf(t, p)), p.connDefaults)
  {
    var d := Describe(t, p, OverrideParams(BaseParams(t), p.targetDefaults), tables);
    d.(connection := d.conn)
  }

  /** The loop over platforms for one target, corrected. */
  function PlatformLoop(t: TargetEntry, platforms: seq<PlatformEntry>, tables: Tables): (ds: seq<Description>)
    ensures |ds| <= |platforms|
    ensures forall i :: 0 <= i < |ds| ==>
      ds[i].source == DescriptorName && ds[i].target == t.cls && ds[i].conn.Some? && ds[i].connection == ds[i].conn
  {
    if |platforms| == 0 then []
    else
      var p := platforms[0];
      (if p.cls in t.unsupported then [] else [DescribeFor(t, p, tables)]) + PlatformLoop(t, platforms[1..], tables)
  }

  /** `DefaultTargetDescriptor.get_descriptions()`, corrected. */
  function GetDescriptions(targets: seq<TargetEntry>, platforms: seq<PlatformEntry>, tables: Tables): (ds: seq<Description>)
    ensures forall i :: 0 <= i < |ds| ==> ds[i].source == DescriptorName && ds[i].conn.Some? && ds[i].connection == ds[i].conn
  {
    if |targets| == 0 then []
    else PlatformLoop(targets[0], platforms, tables) + GetDescriptions(targets[1..], platforms, tables)
  }

  /** A target runs on a platform unless the platform's class is listed as
      unsupported. */
  predicate Supports(t: TargetEntry, p: PlatformEntry) {
    p.cls !in t.unsupported
  }

  // ---------------------------------------------------------------------
  // What the descriptions are

  lemma {:induction false} PlatformLoopMembers(t: TargetEntry, platforms: seq<PlatformEntry>, tables: Tables, d: Description)
    ensures d in PlatformLoop(t, platforms, tables) <==>
      exists j :: 0 <= j < |platforms| && Supports(t, platforms[j]) && d == DescribeFor(t, platforms[j], tables)
  {
    if |platforms| > 0 {
      PlatformLoopMembers(t, platforms[1..], tables, d);
      assert forall j :: 1 <= j < |platforms| ==> platforms[1..][j - 1] == platforms[j];
      if d in PlatformLoop(t, platforms[1..], tables) {
        var j :| 0 <= j < |platforms| - 1 && Supports(t, platforms[1..][j]) && d == DescribeFor(t, platforms[1..][j], tables);
        assert platforms[j + 1] == platforms[1..][j];
      }
    }
  }

  /** The descriptions are exactly one per supported (target, platform)
      pair, each with that platform's target overrides applied to the
      target's own parameters. */
  lemma DescriptionsMembers(targets: seq<TargetEntry>, platforms: seq<PlatformEntry>, tables: Tables, d: Description)
    ensures d in GetDescriptions(targets, platforms, tables) <==>
      exists i, j :: 0 <= i < |targets| && 0 <= j < |platforms| && Supports(targets[i], platforms[j])
        && d == DescribeFor(targets[i], platforms[j], tables)
  {
    if d in GetDescriptions(targets, platforms, tables) {
      var i, j := DescriptionSource(targets, platforms, tables, d);
    }
    if exists i, j :: 0 <= i < |targets| && 0 <= j < |platforms| && Supports(targets[i], platforms[j])
        && d == DescribeFor(targets[i], platforms[j], tables) {
      var i, j :| 0 <= i < |targets| && 0 <= j < |platforms| && Supports(targets[i], platforms[j])
        && d == DescribeFor(targets[i], platforms[j], tables);
      PairDescribed(targets, platforms, tables, i, j);
    }
  }

  /** Every description is that of a supported pair. */
  lemma {:induction false} DescriptionSource(targets: seq<TargetEntry>, platforms: seq<PlatformEntry>, tables: Tables,
                                             d: Description) returns (i: nat, j: nat)
    requires d in GetDescriptions(targets, platforms, tables)
    ensures i < |targets| && j < |platforms| && Supports(targets[i], platforms[j])
    ensures d == DescribeFor(targets[i], platforms[j], tables)
    decreases |targets|
  {
    PlatformLoopMembers(targets[0], platforms, tables, d);
    if d in PlatformLoop(targets[0], platforms, tables) {
      i := 0;
      j :| 0 <= j < |platforms| && Supports(targets[0], platforms[j]) && d == DescribeFor(targets[0], platforms[j], tables);
    } else {
      var k;
      k, j := DescriptionSource(targets[1..], platforms, tables, d);
      i := k + 1;
      assert targets[i] == targets[1..][k];
    }
  }

  /** Every supported pair is described. */
  lemma {:induction false} PairDescribed(targets: seq<TargetEntry>, platforms: seq<PlatformEntry>, tables: Tables, i: nat, j: nat)
    requires i < |targets| && j < |platforms| && Supports(targets[i], platforms[j])
    ensures DescribeFor(targets[i], platforms[j], tables) in GetDescriptions(targets, platforms, tables)
    decreases i
  {
    if i == 0 {
      PlatformLoopMembers(targets[0], platforms, tables, DescribeFor(targets[0], platforms[j], tables));
    } else {
      assert targets[1..][i - 1] == targets[i];
      PairDescribed(targets[1..], platforms, tables, i - 1, j);
    }
  }

  /** Every description's connection class, and the connection
      parameters it accepts, are the platform's when the platform names a
      connection and the target's otherwise; the platform's connection
      defaults override those parameters. */
  lemma DescriptionConnections(targets: seq<TargetEntry>, platforms: seq<PlatformEntry>, tables: Tables, d: Description)
    requires d in GetDescriptions(targets, platforms, tables)
    ensures exists i, j ::
      && 0 <= i < |targets| && 0 <= j < |platforms| && Supports(targets[i], platforms[j])
      && d.name == DescriptionName(platforms[j].name, targets[i].name)
      && d.connection == d.conn
      && d.conn == Some(if platforms[j].conn.Some? then platforms[j].conn.value else targets[i].conn)
      && d.connParams == OverrideParams(tables.connParams(d.conn.value), platforms[j].connDefaults)
  {
    DescriptionsMembers(targets, platforms, tables, d);
  }

  /** As written, a default description reaches `instantiate_target`
      without a connection class: unless one of the target's own
      parameters is named `conn_cls`, the target constructor receives
      none, so a connection class the platform imposes never reaches it. */
  lemma ConnectionLostAsWritten(t: TargetEntry, p: PlatformEntry, targetParams: seq<Parameter>, tables: Tables,
                                params: Dict<Value>, connect: Option<bool>, extra: Option<Dict<Value>>)
    requires Distinct(Keys(params))
    requires Instantiation.InstantiateTarget(Describe(t, p, targetParams, tables), params, connect, extra).Ok?
    requires !HasKey(Instantiation.MapsOf(Describe(t, p, targetParams, tables)).target, "conn_cls")
    ensures Describe(t, p, targetParams, tables).conn == Some(ConnectionOf(t, p))
    ensures Get(Instantiation.InstantiateTarget(Describe(t, p, targetParams, tables), params, connect, extra).value.args, "conn_cls") == None
  {
    var d := Describe(t, p, targetParams, tables);
    Instantiation.ConnectionClassArgument(d, params, connect, extra);
    Instantiation.NoTargetValue(d, params, "conn_cls");
  }

  /** Corrected, the target constructor receives the platform's connection
      class when the platform names one, and the target's otherwise. */
  lemma ConnectionPassed(t: TargetEntry, p: PlatformEntry, tables: Tables,
                         params: Dict<Value>, connect: Option<bool>, extra: Option<Dict<Value>>)
    requires Distinct(Keys(params))
    requires Instantiation.InstantiateTarget(DescribeFor(t, p, tables), params, connect, extra).Ok?
    ensures Get(Instantiation.InstantiateTarget(DescribeFor(t, p, tables), params, connect, extra).value.args, "conn_cls") ==
      Some(Instantiation.ConnectionClass(if p.conn.Some? then p.conn.value else t.conn))
  {
    Instantiation.ConnectionClassArgument(DescribeFor(t, p, tables), params, connect, extra);
  }

  /** As written, the loop for one target yields descriptions constructed
      without a connection class, each carrying the platform's or else the
      target's class in `conn` alone. */
  lemma {:induction false} PlatformLoopConnectionsAsWritten(t: TargetEntry, targetParams: seq<Parameter>,
                                                            platforms: seq<PlatformEntry>, tables: Tables, k: nat)
    requires k < |PlatformLoopAsWritten(t, targetParams, platforms, tables)|
    ensures var d := PlatformLoopAsWritten(t, targetParams, platforms, tables)[k];
      && d.connection.None?
      && (exists j :: 0 <= j < |platforms| && Supports(t, platforms[j])
            && d.name == DescriptionName(platforms[j].name, t.name) && d.conn == Some(ConnectionOf(t, platforms[j])))
    decreases |platforms|
  {
    var p := platforms[0];
    var rest := platforms[1..];
    if p.cls in t.unsupported {
      PlatformLoopConnectionsAsWritten(t, targetParams, rest, tables, k);
      var j :| 0 <= j < |rest| && Supports(t, rest[j]) && PlatformLoopAsWritten(t, targetParams, rest, tables)[k].conn == Some(ConnectionOf(t, rest[j]))
        && PlatformLoopAsWritten(t, targetParams, rest, tables)[k].name == DescriptionName(rest[j].name, t.name);
      assert rest[j] == platforms[j + 1];
    } else if k > 0 {
      var carried := OverrideParams(targetParams, p.targetDefaults);
      PlatformLoopConnectionsAsWritten(t, carried, rest, tables, k - 1);
      var d := PlatformLoopAsWritten(t, carried, rest, tables)[k - 1];
      var j :| 0 <= j < |rest| && Supports(t, rest[j]) && d.conn == Some(ConnectionOf(t, rest[j]))
        && d.name == DescriptionName(rest[j].name, t.name);
      assert rest[j] == platforms[j + 1];
    } else {
      assert Supports(t, platforms[0]);
    }
  }

  // ---------------------------------------------------------------------
  // Distinct names

  /** When the target name has no underscore, a description name
      determines its platform and target names. */
  lemma NameInjective(p1: string, t1: string, p2: string, t2: string)
    requires '_' !in t1 && '_' !in t2
    requires DescriptionName(p1, t1) == DescriptionName(p2, t2)
    ensures p1 == p2 && t1 == t2
  {
    LastUnderscoreAt(p1, t1);
    LastUnderscoreAt(p2, t2);
    var n := DescriptionName(p1, t1);
    assert p1 == n[..|p1|] && p2 == n[..|p2|];
    assert t1 == n[|p1| + 1..] && t2 == n[|p2| + 1..];
  }

  lemma LastUnderscoreAt(p: string, t: string)
    requires '_' !in t
    ensures Text.LastIndexOf(DescriptionName(p, t), '_') == Some(|p|)
  {
    var n := DescriptionName(p, t);
    forall j | |p| < j < |n|
      ensures n[j] != '_'
    {
      assert n[j] == t[j - |p| - 1];
    }
    Text.LastIndexOfAt(n, '_', |p|);
  }

  /** Two sequences of descriptions with distinct names and no name in
      common concatenate to one with distinct names. */
  lemma DistinctAppend(a: seq<Description>, b: seq<Description>)
    requires Distinct(NamesOf(a, NameOfDescription)) && Distinct(NamesOf(b, NameOfDescription))
    requires forall x, y :: x in a && y in b ==> x.name != y.name
    ensures Distinct(NamesOf(a + b, NameOfDescription))
  {
    forall i, j | 0 <= i < j < |a + b|
      ensures NamesOf(a + b, NameOfDescription)[i] != NamesOf(a + b, NameOfDescription)[j]
    {
      if j < |a| {
        assert NamesOf(a, NameOfDescription)[i] != NamesOf(a, NameOfDescription)[j];
      } else if i >= |a| {
        assert NamesOf(b, NameOfDescription)[i - |a|] != NamesOf(b, NameOfDescription)[j - |a|];
      } else {
        assert (a + b)[i] in a && (a + b)[j] in b;
      }
    }
  }

  /** Descriptions of one target on platforms with different names have
      different names. */
  lemma PlatformNamesDiffer(p: string, q: string, t: string)
    requires p != q
    ensures DescriptionName(p, t) != DescriptionName(q, t)
  {
    if |p| == |q| {
      assert DescriptionName(p, t)[..|p|] == p && DescriptionName(q, t)[..|q|] == q;
    } else {
      assert |DescriptionName(p, t)| != |DescriptionName(q, t)|;
    }
  }

  lemma {:induction false} PlatformLoopDistinct(t: TargetEntry, platforms: seq<PlatformEntry>, tables: Tables)
    requires forall j, k :: 0 <= j < k < |platforms| ==> platforms[j].name != platforms[k].name
    ensures Distinct(NamesOf(PlatformLoop(t, platforms, tables), NameOfDescription))
  {
    if |platforms| > 0 {
      var p := platforms[0];
      var rest := PlatformLoop(t, platforms[1..], tables);
      PlatformLoopDistinct(t, platforms[1..], tables);
      var head: seq<Description> := if Supports(t, p) then [DescribeFor(t, p, tables)] else [];
      forall x, y | x in head && y in rest
        ensures x.name != y.name
      {
        PlatformLoopMembers(t, platforms[1..], tables, y);
        var j :| 0 <= j < |platforms| - 1 && Supports(t, platforms[1..][j]) && y == DescribeFor(t, platforms[1..][j], tables);
        assert platforms[1..][j] == platforms[j + 1];
        PlatformNamesDiffer(p.name, platforms[j + 1].name, t.name);
      }
      DistinctAppend(head, rest);
    }
  }

  /** With distinct platform names, distinct target names and no target
      name containing `_`, the descriptions have pairwise distinct names,
      so loading them raises no duplicate error. */
  lemma {:induction false} DescriptionNamesDistinct(targets: seq<TargetEntry>, platforms: seq<PlatformEntry>, tables: Tables)
    requires forall j, k :: 0 <= j < k < |platforms| ==> platforms[j].name != platforms[k].name
    requires forall i, k :: 0 <= i < k < |targets| ==> targets[i].name != targets[k].name
    requires forall i :: 0 <= i < |targets| ==> '_' !in targets[i].name
    ensures Distinct(NamesOf(GetDescriptions(targets, platforms, tables), NameOfDescription))
    ensures ListTargetDescriptions([Descriptor(DescriptorName, GetDescriptions(targets, platforms, tables))]).Ok?
  {
    var all := GetDescriptions(targets, platforms, tables);
    if |targets| > 0 {
      var t := targets[0];
      var head := PlatformLoop(t, platforms, tables);
      var rest := GetDescriptions(targets[1..], platforms, tables);
      PlatformLoopDistinct(t, platforms, tables);
      DescriptionNamesDistinct(targets[1..], platforms, tables);
      FirstTargetApart(targets, platforms, tables);
      DistinctAppend(head, rest);
    }
    var loaded := [Descriptor(DescriptorName, all)];
    assert Produced(loaded) == Produced(loaded[..0]) + all;
    ListTargetDescriptionsSpec(loaded);
  }

  /** The descriptions of the first target are named apart from those of
      the later targets. */
  lemma FirstTargetApart(targets: seq<TargetEntry>, platforms: seq<PlatformEntry>, tables: Tables)
    requires |targets| > 0
    requires forall i, k :: 0 <= i < k < |targets| ==> targets[i].name != targets[k].name
    requires forall i :: 0 <= i < |targets| ==> '_' !in targets[i].name
    ensures forall x, y | x in PlatformLoop(targets[0], platforms, tables) && y in GetDescriptions(targets[1..], platforms, tables) ::
      x.name != y.name
  {
    var t := targets[0];
    forall x, y | x in PlatformLoop(t, platforms, tables) && y in GetDescriptions(targets[1..], platforms, tables)
      ensures x.name != y.name
    {
      PlatformLoopMembers(t, platforms, tables, x);
      DescriptionsMembers(targets[1..], platforms, tables, y);
      var j :| 0 <= j < |platforms| && Supports(t, platforms[j]) && x == DescribeFor(t, platforms[j], tables);
      var i, k :| 0 <= i < |targets| - 1 && 0 <= k < |platforms| && Supports(targets[1..][i], platforms[k])
        && y == DescribeFor(targets[1..][i], platforms[k], tables);
      assert targets[1..][i] == targets[i + 1];
      if x.name == y.name {
        NameInjective(platforms[j].name, t.name, platforms[k].name, targets[i + 1].name);
      }
    }
  }

  // ---------------------------------------------------------------------
  // The two loops compared

  /** Platforms that override no target parameter. */
  predicate NoTargetOverrides(platforms: seq<PlatformEntry>) {
    forall j :: 0 <= j < |platforms| ==> platforms[j].targetDefaults.None? || |platforms[j].targetDefaults.value| == 0
  }

  /** The descriptions with the class assigned to `conn` also given as
      the constructed connection class. */
  function Connected(ds: seq<Description>): (r: seq<Description>)
    ensures |r| == |ds|
  {
    seq(|ds|, i requires 0 <= i < |ds| => ds[i].(connection := ds[i].conn))
  }

  lemma ConnectedAppend(a: seq<Description>, b: seq<Description>)
    ensures Connected(a + b) == Connected(a) + Connected(b)
  {
  }

  /** Without platform target overrides, the loop as written differs from
      the corrected one only in the connection class it leaves out. */
  lemma {:induction false} LoopsAgreeWithoutOverrides(t: TargetEntry, platforms: seq<PlatformEntry>, tables: Tables)
    requires NoTargetOverrides(platforms)
    ensures Connected(PlatformLoopAsWritten(t, BaseParams(t), platforms, tables)) == PlatformLoop(t, platforms, tables)
  {
    if |platforms| > 0 {
      var p := platforms[0];
      assert NoTargetOverrides(platforms[1..]) by {
        assert forall j :: 0 <= j < |platforms| - 1 ==> platforms[1..][j] == platforms[j + 1];
      }
      LoopsAgreeWithoutOverrides(t, platforms[1..], tables);
      var rest := PlatformLoopAsWritten(t, BaseParams(t), platforms[1..], tables);
      if p.cls !in t.unsupported {
        assert OverrideParams(BaseParams(t), p.targetDefaults) == BaseParams(t);
        ConnectedAppend([Describe(t, p, BaseParams(t), tables)], rest);
      }
    }
  }

  /** When no platform overrides target parameters (as in the shipped
      PLATFORMS table), the loop as written yields the corrected
      descriptions, less their constructed connection class. */
  lemma {:induction false} AsWrittenAgreesWithoutOverrides(targets: seq<TargetEntry>, platforms: seq<PlatformEntry>, tables: Tables)
    requires NoTargetOverrides(platforms)
    ensures Connected(GetDescriptionsAsWritten(targets, platforms, tables)) == GetDescriptions(targets, platforms, tables)
  {
    if |targets| > 0 {
      LoopsAgreeWithoutOverrides(targets[0], platforms, tables);
      AsWrittenAgreesWithoutOverrides(targets[1..], platforms, tables);
      ConnectedAppend(PlatformLoopAsWritten(targets[0], BaseParams(targets[0]), platforms, tables),
                      GetDescriptionsAsWritten(targets[1..], platforms, tables));
    }
  }

  /** In the corrected loop a platform's description does not depend on
      the platforms listed before or after it. */
  lemma {:induction false} PlatformLoopAppend(t: TargetEntry, a: seq<PlatformEntry>, b: seq<PlatformEntry>, tables: Tables)
    ensures PlatformLoop(t, a + b, tables) == PlatformLoop(t, a, tables) + PlatformLoop(t, b, tables)
  {
    if |a| > 0 {
      assert (a + b)[0] == a[0] && (a + b)[1..] == a[1..] + b;
      PlatformLoopAppend(t, a[1..], b, tables);
      var head := if a[0].cls in t.unsupported then [] else [DescribeFor(t, a[0], tables)];
      assert PlatformLoop(t, a + b, tables) == head + PlatformLoop(t, a[1..] + b, tables);
      assert head + (PlatformLoop(t, a[1..], tables) + PlatformLoop(t, b, tables))
          == (head + PlatformLoop(t, a[1..], tables)) + PlatformLoop(t, b, tables);
    } else {
      assert a + b == b;
    }
  }

  /** A target with one integer parameter `x` (default 0), on a platform
      that overrides `x` to 1 and then on a platform that overrides
      nothing. */
  function LeakTarget(): TargetEntry {
    TargetEntry("linux", "LinuxTarget", "SshConnection", [], [Parameter("x", [], Int(0), false)], None)
  }

  function LeakPlatforms(): seq<PlatformEntry> {
    [PlatformEntry("juno", "Juno", None, None, [], None, Some([Parameter("x", [], Int(1), false)])),
     PlatformEntry("generic", "Platform", None, None, [], None, None)]
  }

  /** The loop as written gives `generic_linux` the `x = 1` that only
      `juno` asked for; the corrected loop gives it the target's own
      `x = 0`. */
  lemma OverridesLeakAsWritten(tables: Tables)
    ensures var asWritten := GetDescriptionsAsWritten([LeakTarget()], LeakPlatforms(), tables);
      |asWritten| == 2 && asWritten[1].name == "generic_linux"
      && asWritten[1].targetParams == [Parameter("x", [], Int(1), false)]
    ensures var corrected := GetDescriptions([LeakTarget()], LeakPlatforms(), tables);
      |corrected| == 2 && corrected[1].name == "generic_linux"
      && corrected[1].targetParams == [Parameter("x", [], Int(0), false)]
  {
    var t := LeakTarget();
    var ps := LeakPlatforms();
    var x0 := Parameter("x", [], Int(0), false);
    var x1 := Parameter("x", [], Int(1), false);
    OverrideKeepsShape([x0], [x1]);
    assert OverrideParams([x0], Some([x1])) == [x1] by {
      assert LastNamed([x1], "x") == Some(x1) by {
        assert Keyed([x1]) == [("x", x1)];
      }
    }
    assert ps[1..][1..] == [] && [t][1..] == [];
    assert DescriptionName("generic", "linux") == "generic_linux";
    assert PlatformLoop(t, ps[1..], tables) == [DescribeFor(t, ps[1], tables)];
    assert GetDescriptions([t], ps, tables) == [DescribeFor(t, ps[0], tables), DescribeFor(t, ps[1], tables)];
  }
}
