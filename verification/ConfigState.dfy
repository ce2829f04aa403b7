/** What the API server keeps about its configuration, and what every mutating
    request does to it as one step under the mutation lock. */
module ConfigState {
  import opened Text

  /** A NetBIOS block. Records that point to one block carry the same `id`; a write
      through the pointer shows in all of them. */
  datatype Block = Block(id: nat, name: string)

  /** A device as far as the mutation paths look at it; `rest` is everything they
      only carry along. */
  datatype Device = Device(
    name: string, walkFile: string, community: string, netbios: Option<Block>, rest: string)

  datatype Config = Config(devices: seq<Device>, segments: seq<seq<Device>>, settings: string)

  datatype Graph = Graph(text: string)

  datatype Session = Session(config: Option<Config>, path: string)

  /** `running` is the configuration the runtime last took over. */
  datatype State = State(
    files: map<string, string>, path: string, config: Option<Config>, graph: Graph,
    sessions: map<string, Session>, selected: string, running: Option<Config>)

  /** The code the handlers call into: the YAML writer and reader, the name probe
      on file text, the fragment splice, the topology builder, upper-casing, and two
      settings. */
  datatype World = World(
    marshal: Config -> Option<string>,
    load: string -> Option<Config>,
    listed: string -> Option<seq<string>>,
    splice: (string, string, string) -> Option<string>,
    build: Config -> Graph,
    upper: string -> string,
    budget: nat,
    hasApply: bool)

  function Names(c: Config): (names: seq<string>)
    ensures |names| == |c.devices|
    ensures forall i :: 0 <= i < |names| ==> names[i] == c.devices[i].name
  {
    seq(|c.devices|, i requires 0 <= i < |c.devices| => c.devices[i].name)
  }

  function Sum(segments: seq<seq<Device>>): nat {
    if segments == [] then 0 else |segments[0]| + Sum(segments[1..])
  }

  function DeviceCount(c: Config): nat {
    if c.segments == [] then |c.devices| else Sum(c.segments)
  }

  /** Text written for a configuration lists that configuration's devices. */
  ghost predicate Faithful(w: World) {
    && (forall c :: w.marshal(c).Some? ==> w.listed(w.marshal(c).value) == Some(Names(c)))
    && (forall t :: w.load(t).Some? ==> w.listed(t) == Some(Names(w.load(t).value)))
  }

  /** What the topology builder looks at: everything but the NetBIOS blocks. */
  function Plain(c: Config): Config {
    c.(devices := seq(|c.devices|, i requires 0 <= i < |c.devices| => c.devices[i].(netbios := None)))
  }

  function GraphOf(w: World, config: Option<Config>): Graph {
    match config
    case None => Graph("")
    case Some(c) => w.build(Plain(c))
  }

  // ---------------------------------------------------------------------------
  // Device lists

  function FindIndex(devices: seq<Device>, name: string): (r: Option<nat>)
    ensures r.Some? ==> r.value < |devices| && devices[r.value].name == name
    ensures r.Some? ==> forall j :: 0 <= j < r.value ==> devices[j].name != name
    ensures r.None? ==> forall j :: 0 <= j < |devices| ==> devices[j].name != name
  {
    if devices == [] then None
    else if devices[0].name == name then Some(0)
    else
      match FindIndex(devices[1..], name)
      case None => None
      case Some(i) => Some(i + 1)
  }

  /** The devices that carry none of these names, in order. */
  function Without(devices: seq<Device>, names: set<string>): seq<Device> {
    if devices == [] then []
    else
      var front, last := Without(devices[..|devices| - 1], names), devices[|devices| - 1];
      if last.name in names then front else front + [last]
  }

  predicate Has(devices: seq<Device>, name: string) {
    exists i :: 0 <= i < |devices| && devices[i].name == name
  }

  // ---------------------------------------------------------------------------
  // Save paths

  /** What handing a configuration to the runtime did; after a failure the runtime
      may be left with anything. */
  datatype Applied = Took | Refused(left: Option<Config>)

  /** The outcomes of one request's reads, writes and runtime calls. */
  datatype Io = Io(readOk: bool, writeOk: bool, apply: Applied)

  function AfterApply(w: World, s: State, c: Config, outcome: Applied): State {
    if !w.hasApply then s
    else
      match outcome
      case Took => s.(running := Some(c))
      case Refused(left) => s.(running := left)
  }

  /** `replaceConfig` */
  function Installed(w: World, s: State, c: Config): State {
    s.(config := Some(c), graph := w.build(Plain(c)),
       sessions := if s.selected in s.sessions
                   then s.sessions[s.selected := s.sessions[s.selected].(config := Some(c))]
                   else s.sessions)
  }

  /** `writeConfigFile`: the rename replaces the file or nothing happens. */
  function Written(s: State, text: string): State {
    s.(files := s.files[s.path := text])
  }

  function WriteAndInstall(w: World, s: State, c: Config, text: string, io: Io): State {
    if !io.writeOk then s
    else AfterApply(w, Installed(w, Written(s, text), c), c, io.apply)
  }

  /** `saveConfig` */
  function Saved(w: World, s: State, c: Config, io: Io): State {
    match w.marshal(c)
    case None => s
    case Some(text) => WriteAndInstall(w, s, c, text, io)
  }

  /** `saveDeviceEditPreservingText` */
  function SavedAsText(w: World, s: State, c: Config, name: string, raw: string, io: Io): State {
    if s.path !in s.files || !io.readOk then Saved(w, s, c, io)
    else
      match w.splice(s.files[s.path], name, raw)
      case None => Saved(w, s, c, io)
      case Some(spliced) =>
        if w.listed(spliced) == Some(Names(c)) then WriteAndInstall(w, s, c, spliced, io)
        else Saved(w, s, c, io)
  }

  // ---------------------------------------------------------------------------
  // Requests

  datatype Event =
    | Create(name: string, built: Option<Device>, valid: bool, io: Io)
    | Update(name: string, changed: Option<Device>, raw: Option<string>, valid: bool, io: Io)
    | Clone(source: string, name: string, rest: string, valid: bool, io: Io)
    | Delete(name: string, io: Io)
    | BatchDelete(names: seq<string>, io: Io)
    | Attach(name: string, walk: string, io: Io)
    | Replace(content: string, valid: bool, io: Io, rollback: Applied)
    | Select(id: string)
    | Remove(id: string)

  const MAX_BATCH := 1000

  /** `validateDeviceAddition` */
  predicate MayAdd(w: World, c: Config, name: string) {
    DeviceCount(c) < w.budget && c.segments == [] && !Has(c.devices, name)
  }

  function CreateStep(w: World, s: State, c: Config, e: Event): State
    requires e.Create?
  {
    if !MayAdd(w, c, e.name) || e.built.None? || !e.valid then s
    else Saved(w, s, c.(devices := c.devices + [e.built.value.(name := e.name)]), e.io)
  }

  function UpdateStep(w: World, s: State, c: Config, e: Event): State
    requires e.Update?
  {
    match FindIndex(c.devices, e.name)
    case None => s
    case Some(i) =>
      if e.changed.None? || !e.valid then s
      else
        var updated := c.(devices := c.devices[i := e.changed.value.(name := e.name)]);
        if e.raw.Some? then SavedAsText(w, s, updated, e.name, e.raw.value, e.io)
        else Saved(w, s, updated, e.io)
  }

  /** The records after a write through the pointer to `block`. */
  function Relabeled(devices: seq<Device>, block: Block, name: string): (r: seq<Device>)
    ensures |r| == |devices|
    ensures forall i :: 0 <= i < |r| ==>
              r[i] == if devices[i].netbios == Some(block)
                      then devices[i].(netbios := Some(block.(name := name))) else devices[i]
  {
    seq(|devices|, i requires 0 <= i < |devices| =>
      if devices[i].netbios == Some(block) then devices[i].(netbios := Some(block.(name := name))) else devices[i])
  }

  function RelabelConfig(config: Option<Config>, block: Block, name: string): Option<Config> {
    match config
    case None => None
    case Some(c) => Some(c.(devices := Relabeled(c.devices, block, name)))
  }

  /** That write shows in memory, in the sessions and in the runtime alike. */
  function Relabel(s: State, block: Block, name: string): State {
    s.(config := RelabelConfig(s.config, block, name),
       sessions := map id | id in s.sessions ::
         s.sessions[id].(config := RelabelConfig(s.sessions[id].config, block, name)),
       running := RelabelConfig(s.running, block, name))
  }

  /** `cloneDevice` writes the new name into the source's own block if it has a name. */
  function Touched(w: World, s: State, block: Option<Block>, name: string): State {
    if block.None? || block.value.name == "" then s else Relabel(s, block.value, w.upper(name))
  }

  /** The state the save starts from; the clone handler writes before it validates. */
  function Base(w: World, s: State, e: Event): State {
    if e.Clone? && s.config.Some? && MayAdd(w, s.config.value, e.name) then
      match FindIndex(s.config.value.devices, e.source)
      case None => s
      case Some(i) => Touched(w, s, s.config.value.devices[i].netbios, e.name)
    else s
  }

  function CloneStep(w: World, s: State, c: Config, e: Event): State
    requires e.Clone? && s.config == Some(c)
  {
    match FindIndex(c.devices, e.source)
    case None => s
    case Some(i) =>
      if !MayAdd(w, c, e.name) then s
      else
        var touched := Touched(w, s, c.devices[i].netbios, e.name);
        if !e.valid then touched
        else
          var live := touched.config.value;
          Saved(w, touched, live.(devices := live.devices + [live.devices[i].(name := e.name, rest := e.rest)]), e.io)
  }

  function DeleteStep(w: World, s: State, c: Config, e: Event): State
    requires e.Delete?
  {
    if !Has(c.devices, e.name) then s
    else Saved(w, s, c.(devices := Without(c.devices, {e.name})), e.io)
  }

  function BatchStep(w: World, s: State, c: Config, e: Event): State
    requires e.BatchDelete?
  {
    var wanted := set n | n in e.names;
    if e.names == [] || |e.names| > MAX_BATCH || forall n :: n in e.names ==> !Has(c.devices, n) then s
    else Saved(w, s, c.(devices := Without(c.devices, wanted)), e.io)
  }

  function AttachStep(w: World, s: State, c: Config, e: Event): State
    requires e.Attach?
  {
    match FindIndex(c.devices, e.name)
    case None => s
    case Some(i) =>
      var d := c.devices[i];
      if d.walkFile == e.walk then s
      else
        var attached := d.(walkFile := e.walk, community := if d.community == "" then "public" else d.community);
        Saved(w, s, c.(devices := c.devices[i := attached]), e.io)
  }

  /** `handleConfigUpdate`: apply, write, and on a failed write apply the previous
      configuration again. */
  function ReplaceStep(w: World, s: State, e: Event): State
    requires e.Replace?
  {
    if s.path == "" then s
    else
      match w.load(e.content)
      case None => s
      case Some(c) =>
        if DeviceCount(c) > w.budget || !e.valid then s
        else
          var applied := AfterApply(w, s, c, e.io.apply);
          if w.hasApply && e.io.apply.Refused? then applied
          else if !e.io.writeOk then
            if s.config.Some? then AfterApply(w, applied, s.config.value, e.rollback) else applied
          else Installed(w, Written(applied, e.content), c)
  }

  /** `applySimulationState` */
  function Showing(w: World, s: State, session: Session): State {
    s.(config := session.config, path := session.path, graph := GraphOf(w, session.config))
  }

  function SelectStep(w: World, s: State, id: string): State {
    if id !in s.sessions then s else Showing(w, s.(selected := id), s.sessions[id])
  }

  function RemoveStep(w: World, s: State, id: string): State {
    var fewer := s.(sessions := s.sessions - {id});
    if s.selected != id then fewer else Showing(w, fewer.(selected := ""), Session(None, ""))
  }

  function Step(w: World, s: State, e: Event): State {
    if e.Select? then SelectStep(w, s, e.id)
    else if e.Remove? then RemoveStep(w, s, e.id)
    else if e.Replace? then ReplaceStep(w, s, e)
    else if s.config.None? then s
    else
      var c := s.config.value;
      if e.Create? then CreateStep(w, s, c, e)
      else if e.Update? then UpdateStep(w, s, c, e)
      else if e.Clone? then CloneStep(w, s, c, e)
      else if e.Delete? then DeleteStep(w, s, c, e)
      else if e.BatchDelete? then BatchStep(w, s, c, e)
      else AttachStep(w, s, c, e)
  }

  function Run(w: World, s: State, events: seq<Event>): State
    decreases |events|
  {
    if events == [] then s else Run(w, Step(w, s, events[0]), events[1..])
  }
}
