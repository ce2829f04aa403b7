/** The API server's configuration as its handlers update it in place. Each
    handler runs under the mutation lock and is one step of `ConfigState`. */
module ConfigServer {
  import opened Text
  import opened ConfigState
  import opened ConfigRuns

  /** `findDeviceIndex` */
  method FindDeviceIndex(devices: seq<Device>, hostname: string) returns (index: int)
    ensures index == -1 <==> FindIndex(devices, hostname).None?
    ensures index != -1 ==> FindIndex(devices, hostname) == Some(index)
  {
    for i := 0 to |devices|
      invariant forall j :: 0 <= j < i ==> devices[j].name != hostname
    {
      if devices[i].name == hostname {
        return i;
      }
    }
    index := -1;
  }

  /** `removeDeviceByHostname` */
  method RemoveDeviceByHostname(devices: seq<Device>, hostname: string) returns (kept: seq<Device>, found: bool)
    ensures kept == Without(devices, {hostname})
    ensures found == Has(devices, hostname)
  {
    found := false;
    kept := [];
    for i := 0 to |devices|
      invariant kept == Without(devices[..i], {hostname})
      invariant found == exists j :: 0 <= j < i && devices[j].name == hostname
    {
      assert devices[..i + 1][..i] == devices[..i];
      if devices[i].name == hostname {
        found := true;
      } else {
        kept := kept + [devices[i]];
      }
    }
    assert devices[..|devices|] == devices;
  }

  /** `sameDeviceNames` */
  method SameDeviceNames(listed: Option<seq<string>>, c: Config) returns (same: bool)
    ensures same == (listed == Some(Names(c)))
  {
    if listed.None? || |listed.value| != |c.devices| {
      return false;
    }
    for i := 0 to |c.devices|
      invariant forall j :: 0 <= j < i ==> listed.value[j] == c.devices[j].name
    {
      if listed.value[i] != c.devices[i].name {
        assert Names(c)[i] != listed.value[i];
        return false;
      }
    }
    assert listed.value == Names(c);
    same := true;
  }

  // ---------------------------------------------------------------------------
  // Batch removal

  datatype Result = Result(hostname: string, success: bool)

  function Mentioned(names: seq<string>): set<string> {
    set n | n in names
  }

  /** Only the first mention of a device that exists succeeds. */
  ghost predicate Reported(devices: seq<Device>, names: seq<string>, results: seq<Result>) {
    && |results| == |names|
    && forall i :: 0 <= i < |results| ==>
         && results[i].hostname == names[i]
         && (results[i].success <==> Has(devices, names[i]) && names[i] !in names[..i])
  }

  /** The requested names that were there to delete. */
  ghost function Existing(devices: seq<Device>, names: seq<string>): set<string> {
    set n | n in names && Has(devices, n)
  }

  lemma {:induction false} WithoutTwice(devices: seq<Device>, a: set<string>, b: set<string>)
    ensures Without(Without(devices, a), b) == Without(devices, a + b)
  {
    if devices != [] {
      var front, last := devices[..|devices| - 1], devices[|devices| - 1];
      WithoutTwice(front, a, b);
      if last.name !in a {
        var kept := Without(front, a) + [last];
        assert kept[..|kept| - 1] == Without(front, a);
      }
    }
  }

  lemma {:induction false} WithoutNothing(devices: seq<Device>)
    ensures Without(devices, {}) == devices
  {
    if devices != [] {
      WithoutNothing(devices[..|devices| - 1]);
    }
  }

  lemma HasAfterRemoval(devices: seq<Device>, names: set<string>, name: string)
    ensures Has(Without(devices, names), name) <==> Has(devices, name) && name !in names
  {
    WithoutKeepsOrder(devices, names);
    var kept := Without(devices, names);
    if Has(kept, name) {
      var i :| 0 <= i < |kept| && kept[i].name == name;
      assert kept[i] in devices;
    }
    if Has(devices, name) && name !in names {
      var i :| 0 <= i < |devices| && devices[i].name == name;
      assert devices[i] in kept;
    }
  }

  lemma {:induction false} WithoutMissing(devices: seq<Device>, names: set<string>, name: string)
    requires !Has(devices, name)
    ensures Without(devices, names + {name}) == Without(devices, names)
  {
    if devices != [] {
      var front := devices[..|devices| - 1];
      assert forall i :: 0 <= i < |front| ==> front[i] == devices[i];
      WithoutMissing(front, names, name);
    }
  }

  /** The loop of `handleDeviceBatchDelete`. */
  method RemoveBatch(devices: seq<Device>, names: seq<string>)
    returns (kept: seq<Device>, results: seq<Result>, deleted: nat, failed: nat)
    ensures kept == Without(devices, Mentioned(names))
    ensures Reported(devices, names, results)
    ensures deleted == |Existing(devices, names)|
    ensures deleted + failed == |names|
  {
    hide Without, Has, Mentioned, Existing, Reported;
    kept, results, deleted, failed := devices, [], 0, 0;
    NothingRemoved(devices, names[..0]);
    for i := 0 to |names|
      invariant kept == Without(devices, Mentioned(names[..i]))
      invariant Reported(devices, names[..i], results)
      invariant deleted == |Existing(devices, names[..i])|
      invariant deleted + failed == i
    {
      var hostname := names[i];
      var smaller, found := RemoveDeviceByHostname(kept, hostname);
      RemovalStep(devices, names, i, results, found);
      if !found {
        failed := failed + 1;
        results := results + [Result(hostname, false)];
      } else {
        kept := smaller;
        deleted := deleted + 1;
        results := results + [Result(hostname, true)];
      }
    }
    assert names[..|names|] == names;
  }

  lemma NothingRemoved(devices: seq<Device>, names: seq<string>)
    requires names == []
    ensures devices == Without(devices, Mentioned(names))
    ensures Reported(devices, names, [])
    ensures |Existing(devices, names)| == 0
  {
    WithoutNothing(devices);
    assert Mentioned(names) == {} && Existing(devices, names) == {};
  }

  lemma RemovalStep(devices: seq<Device>, names: seq<string>, i: nat, results: seq<Result>, found: bool)
    requires i < |names| && Reported(devices, names[..i], results)
    requires found == Has(Without(devices, Mentioned(names[..i])), names[i])
    ensures Without(devices, Mentioned(names[..i + 1])) ==
            if found then Without(Without(devices, Mentioned(names[..i])), {names[i]})
            else Without(devices, Mentioned(names[..i]))
    ensures Reported(devices, names[..i + 1], results + [Result(names[i], found)])
    ensures |Existing(devices, names[..i + 1])| == |Existing(devices, names[..i])| + if found then 1 else 0
  {
    hide Without, Has, Reported, Existing;
    var before, name := Mentioned(names[..i]), names[i];
    assert names[..i + 1] == names[..i] + [name];
    assert Mentioned(names[..i + 1]) == before + {name};
    WithoutTwice(devices, before, {name});
    HasAfterRemoval(devices, before, name);
    ReportStep(devices, names[..i], results, name);
    ExistingStep(devices, names[..i], name);
    if !found {
      if name in before {
        assert before + {name} == before;
      } else {
        WithoutMissing(devices, before, name);
      }
    }
  }

  lemma ReportStep(devices: seq<Device>, names: seq<string>, results: seq<Result>, name: string)
    requires Reported(devices, names, results)
    ensures Reported(devices, names + [name],
                     results + [Result(name, Has(devices, name) && name !in Mentioned(names))])
  {
    hide Has;
    var now := names + [name];
    assert forall j :: 0 <= j <= |names| ==> now[..j] == names[..j];
    assert now[..|names|] == names;
  }

  lemma ExistingStep(devices: seq<Device>, names: seq<string>, name: string)
    ensures |Existing(devices, names + [name])| ==
            |Existing(devices, names)| + if Has(devices, name) && name !in Mentioned(names) then 1 else 0
  {
    hide Has;
    var before, after := Existing(devices, names), Existing(devices, names + [name]);
    assert after == before + if Has(devices, name) then {name} else {};
    if Has(devices, name) && name !in Mentioned(names) {
      assert name !in before;
    } else {
      assert after == before;
    }
  }

  /** The devices left over depend on which names were asked for, not on their
      order or repetition. */
  lemma BatchOrderDoesNotMatter(devices: seq<Device>, names: seq<string>, other: seq<string>)
    requires forall n :: n in names <==> n in other
    ensures Without(devices, Mentioned(names)) == Without(devices, Mentioned(other))
    ensures |Existing(devices, names)| == |Existing(devices, other)|
  {
    assert Mentioned(names) == Mentioned(other);
    assert Existing(devices, names) == Existing(devices, other);
  }

  // ---------------------------------------------------------------------------
  // The server

  class Server {
    const world: World
    var files: map<string, string>
    var path: string
    var config: Option<Config>
    var graph: Graph
    var sessions: map<string, Session>
    var selected: string
    var running: Option<Config>

    constructor (world: World, s: State)
      ensures this.world == world && View() == s
    {
      this.world := world;
      files, path, config, graph := s.files, s.path, s.config, s.graph;
      sessions, selected, running := s.sessions, s.selected, s.running;
    }

    function View(): State
      reads this
    {
      State(files, path, config, graph, sessions, selected, running)
    }

    method ReplaceConfig(c: Config)
      modifies this
      ensures View() == Installed(world, old(View()), c)
    {
      config := Some(c);
      graph := world.build(Plain(c));
      if selected in sessions {
        sessions := sessions[selected := sessions[selected].(config := Some(c))];
      }
    }

    method WriteConfigFile(text: string, ok: bool) returns (written: bool)
      modifies this`files
      ensures written == ok
      ensures View() == if ok then Written(old(View()), text) else old(View())
    {
      if ok {
        files := files[path := text];
      }
      written := ok;
    }

    method ApplyConfig(c: Config, outcome: Applied) returns (ok: bool)
      requires world.hasApply
      modifies this`running
      ensures View() == AfterApply(world, old(View()), c, outcome)
      ensures ok == outcome.Took?
    {
      match outcome {
        case Took => running := Some(c);
        case Refused(left) => running := left;
      }
      ok := outcome.Took?;
    }

    method SaveConfig(c: Config, io: Io)
      modifies this
      ensures View() == Saved(world, old(View()), c, io)
    {
      var text := world.marshal(c);
      if text.None? {
        return;
      }
      var written := WriteConfigFile(text.value, io.writeOk);
      if !written {
        return;
      }
      ReplaceConfig(c);
      if world.hasApply {
        var _ := ApplyConfig(c, io.apply);
      }
    }

    method SaveDeviceEditPreservingText(c: Config, hostname: string, raw: string, io: Io)
      modifies this
      ensures View() == SavedAsText(world, old(View()), c, hostname, raw, io)
    {
      if path !in files || !io.readOk {
        SaveConfig(c, io);
        return;
      }
      var spliced := world.splice(files[path], hostname, raw);
      if spliced.None? {
        SaveConfig(c, io);
        return;
      }
      var same := SameDeviceNames(world.listed(spliced.value), c);
      if !same {
        SaveConfig(c, io);
        return;
      }
      var written := WriteConfigFile(spliced.value, io.writeOk);
      if !written {
        return;
      }
      ReplaceConfig(c);
      if world.hasApply {
        var _ := ApplyConfig(c, io.apply);
      }
    }

    method ValidateDeviceAddition(c: Config, hostname: string) returns (ok: bool)
      ensures ok == MayAdd(world, c, hostname)
    {
      if DeviceCount(c) >= world.budget || c.segments != [] {
        return false;
      }
      var index := FindDeviceIndex(c.devices, hostname);
      ok := index == -1;
      if index != -1 {
        assert c.devices[index].name == hostname;
      }
    }

    method CreateDevice(e: Event)
      requires e.Create?
      modifies this
      ensures View() == Step(world, old(View()), e)
    {
      if config.None? {
        return;
      }
      var c := config.value;
      var ok := ValidateDeviceAddition(c, e.name);
      if !ok || e.built.None? || !e.valid {
        return;
      }
      SaveConfig(c.(devices := c.devices + [e.built.value.(name := e.name)]), e.io);
    }

    method UpdateDevice(e: Event)
      requires e.Update?
      modifies this
      ensures View() == Step(world, old(View()), e)
    {
      if config.None? {
        return;
      }
      var c := config.value;
      var index := FindDeviceIndex(c.devices, e.name);
      if index == -1 || e.changed.None? || !e.valid {
        return;
      }
      var updated := c.(devices := c.devices[index := e.changed.value.(name := e.name)]);
      if e.raw.Some? {
        SaveDeviceEditPreservingText(updated, e.name, e.raw.value, e.io);
      } else {
        SaveConfig(updated, e.io);
      }
    }

    method CloneDevice(e: Event)
      requires e.Clone?
      modifies this
      ensures View() == Step(world, old(View()), e)
    {
      if config.None? {
        return;
      }
      var c := config.value;
      var ok := ValidateDeviceAddition(c, e.name);
      if !ok {
        return;
      }
      var index := FindDeviceIndex(c.devices, e.source);
      if index == -1 {
        return;
      }
      RenameBlock(c.devices[index].netbios, e.name);
      if !e.valid {
        return;
      }
      var live := config.value;
      var cloned := live.devices[index].(name := e.name, rest := e.rest);
      SaveConfig(live.(devices := live.devices + [cloned]), e.io);
    }

    /** The write of `cloneDevice` through the shared pointer: every record that holds
        the block shows it, whoever holds the record. */
    method RenameBlock(block: Option<Block>, newName: string)
      modifies this`config, this`sessions, this`running
      ensures View() == Touched(world, old(View()), block, newName)
    {
      if block.None? || block.value.name == "" {
        return;
      }
      var renamed := world.upper(newName);
      config := RelabelConfig(config, block.value, renamed);
      sessions := map id | id in sessions ::
        sessions[id].(config := RelabelConfig(sessions[id].config, block.value, renamed));
      running := RelabelConfig(running, block.value, renamed);
    }

    method DeleteDevice(e: Event)
      requires e.Delete?
      modifies this
      ensures View() == Step(world, old(View()), e)
    {
      if config.None? {
        return;
      }
      var c := config.value;
      var kept, found := RemoveDeviceByHostname(c.devices, e.name);
      if !found {
        return;
      }
      SaveConfig(c.(devices := kept), e.io);
    }

    method DeleteDevices(e: Event) returns (results: seq<Result>)
      requires e.BatchDelete?
      modifies this
      ensures View() == Step(world, old(View()), e)
      ensures |e.names| <= MAX_BATCH && old(config).Some? ==> Reported(old(config).value.devices, e.names, results)
    {
      results := [];
      if e.names == [] || |e.names| > MAX_BATCH || config.None? {
        return;
      }
      var c := config.value;
      var kept, deleted, failed;
      kept, results, deleted, failed := RemoveBatch(c.devices, e.names);
      SomeExisting(c.devices, e.names);
      if deleted > 0 {
        SaveConfig(c.(devices := kept), e.io);
      }
    }

    method AttachWalkToDevice(e: Event)
      requires e.Attach?
      modifies this
      ensures View() == Step(world, old(View()), e)
    {
      if config.None? {
        return;
      }
      var c := config.value;
      var index := FindDeviceIndex(c.devices, e.name);
      if index < 0 || c.devices[index].walkFile == e.walk {
        return;
      }
      var d := c.devices[index].(walkFile := e.walk);
      if d.community == "" {
        d := d.(community := "public");
      }
      SaveConfig(c.(devices := c.devices[index := d]), e.io);
    }

    method ReplaceWholeConfig(e: Event)
      requires e.Replace?
      modifies this
      ensures View() == Step(world, old(View()), e)
    {
      if path == "" {
        return;
      }
      var loaded := world.load(e.content);
      if loaded.None? || DeviceCount(loaded.value) > world.budget || !e.valid {
        return;
      }
      var previous := config;
      if world.hasApply {
        var ok := ApplyConfig(loaded.value, e.io.apply);
        if !ok {
          return;
        }
      }
      var written := WriteConfigFile(e.content, e.io.writeOk);
      if !written {
        if world.hasApply && previous.Some? {
          var _ := ApplyConfig(previous.value, e.rollback);
        }
        return;
      }
      ReplaceConfig(loaded.value);
    }

    method ApplySimulationState(session: Session)
      modifies this
      ensures View() == Showing(world, old(View()), session)
    {
      config := session.config;
      path := session.path;
      if session.config.None? {
        graph := Graph("");
        return;
      }
      graph := world.build(Plain(session.config.value));
    }

    method SelectSimulation(id: string) returns (ok: bool)
      modifies this
      ensures View() == Step(world, old(View()), Select(id))
      ensures ok == (id in old(sessions))
    {
      if id !in sessions {
        return false;
      }
      selected := id;
      ApplySimulationState(sessions[id]);
      ok := true;
    }

    method RemoveSimulation(id: string)
      modifies this
      ensures View() == Step(world, old(View()), Remove(id))
    {
      sessions := sessions - {id};
      if selected != id {
        return;
      }
      selected := "";
      ApplySimulationState(Session(None, ""));
    }

    /** Hands a request to its handler. */
    method Handle(e: Event)
      modifies this
      ensures View() == Step(world, old(View()), e)
    {
      hide Step;
      match e {
        case Create(_, _, _, _) => CreateDevice(e);
        case Update(_, _, _, _, _) => UpdateDevice(e);
        case Clone(_, _, _, _, _) => CloneDevice(e);
        case Delete(_, _) => DeleteDevice(e);
        case BatchDelete(_, _) => var _ := DeleteDevices(e);
        case Attach(_, _, _) => AttachWalkToDevice(e);
        case Replace(_, _, _, _) => ReplaceWholeConfig(e);
        case Select(id) => var _ := SelectSimulation(id);
        case Remove(id) => RemoveSimulation(id);
      }
    }

    /** Any sequence of requests is a run of the step machine, so the server keeps
        the invariant throughout. */
    method Serve(events: seq<Event>)
      modifies this
      ensures View() == Run(world, old(View()), events)
      ensures Faithful(world) && Inv(world, old(View())) ==> Inv(world, View())
    {
      hide Step, Inv, Faithful;
      for i := 0 to |events|
        invariant Run(world, View(), events[i..]) == Run(world, old(View()), events)
      {
        assert events[i..][0] == events[i] && events[i..][1..] == events[i + 1..];
        Handle(events[i]);
      }
      if Faithful(world) && Inv(world, old(View())) {
        RunsKeepInv(world, old(View()), events);
      }
    }
  }

  lemma SomeExisting(devices: seq<Device>, names: seq<string>)
    ensures |Existing(devices, names)| > 0 <==> exists n :: n in names && Has(devices, n)
  {
    if n :| n in names && Has(devices, n) {
      assert n in Existing(devices, names);
    }
  }
}
