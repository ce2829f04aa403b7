/** Safety of the configuration state over every run of requests, with any mix
    of failed reads, writes and runtime calls. */
module ConfigRuns {
  import opened Text
  import opened ConfigState

  /** The file at `path` lists this configuration's devices, in order. */
  predicate OnDisk(w: World, s: State, path: string, c: Config) {
    path in s.files && w.listed(s.files[path]) == Some(Names(c))
  }

  predicate Fits(w: World, config: Option<Config>) {
    config.Some? ==> DeviceCount(config.value) <= w.budget
  }

  /** Every session saves to a file of its own, and a configuration shown without a
      session does not share one either. */
  predicate PathsApart(s: State) {
    && (forall a, b :: a in s.sessions && b in s.sessions && a != b ==> s.sessions[a].path != s.sessions[b].path)
    && (s.selected !in s.sessions && s.config.Some? ==> forall a :: a in s.sessions ==> s.sessions[a].path != s.path)
  }

  /** Files list the devices of memory and of every session, the topology is built
      from memory, the selected session holds what is in memory, and nothing exceeds
      the budget. */
  predicate Core(w: World, s: State) {
    && "" !in s.sessions
    && (s.config.Some? ==> OnDisk(w, s, s.path, s.config.value))
    && (forall a :: a in s.sessions && s.sessions[a].config.Some? ==>
          OnDisk(w, s, s.sessions[a].path, s.sessions[a].config.value))
    && s.graph == GraphOf(w, s.config)
    && (s.selected in s.sessions ==> s.sessions[s.selected] == Session(s.config, s.path))
    && (s.selected !in s.sessions && s.config.None? ==> s.path == "")
    && Fits(w, s.config)
    && (forall a :: a in s.sessions ==> Fits(w, s.sessions[a].config))
  }

  predicate Inv(w: World, s: State) {
    Core(w, s) && PathsApart(s)
  }

  /** Nothing but the runtime moved. */
  predicate Unmoved(s: State, t: State) {
    t == s.(running := t.running)
  }

  /** The request took: file, memory, topology and the selected session all moved
      to the same new configuration, and nothing else did. */
  predicate Moved(w: World, s: State, t: State, c: Config) {
    && t.config == Some(c)
    && t.files.Keys == s.files.Keys + {s.path}
    && OnDisk(w, t, s.path, c)
    && (forall p :: p in s.files && p != s.path ==> t.files[p] == s.files[p])
    && t == Installed(w, s, c).(files := t.files, running := t.running)
  }

  /** Every save path either moves everything or nothing. */
  ghost predicate AllOrNothing(w: World, s: State, t: State, c: Config) {
    Unmoved(s, t) || Moved(w, s, t, c)
  }

  lemma SavedAllOrNothing(w: World, s: State, c: Config, io: Io)
    requires Faithful(w)
    ensures AllOrNothing(w, s, Saved(w, s, c, io), c)
  {
    hide WriteAndInstall, Moved;
    if w.marshal(c).Some? {
      InstallMoves(w, s, c, w.marshal(c).value, io);
    }
  }

  lemma SavedAsTextAllOrNothing(w: World, s: State, c: Config, name: string, raw: string, io: Io)
    requires Faithful(w)
    ensures AllOrNothing(w, s, SavedAsText(w, s, c, name, raw, io), c)
  {
    SavedAllOrNothing(w, s, c, io);
    hide Saved, WriteAndInstall, Moved, Faithful;
    if s.path in s.files {
      var spliced := w.splice(s.files[s.path], name, raw);
      if spliced.Some? && w.listed(spliced.value) == Some(Names(c)) {
        InstallMoves(w, s, c, spliced.value, io);
      }
    }
  }

  /** The configuration a mutation tries to install. */
  function Intended(w: World, s: State, e: Event): Option<Config>
    requires !e.Select? && !e.Remove?
  {
    if e.Replace? then w.load(e.content)
    else if s.config.None? then None
    else
      var c := s.config.value;
      if e.Create? then
        if e.built.Some? then Some(c.(devices := c.devices + [e.built.value.(name := e.name)])) else None
      else if e.Clone? then
        match FindIndex(c.devices, e.source)
        case None => None
        case Some(i) => Some(c.(devices := c.devices + [c.devices[i].(name := e.name, rest := e.rest)]))
      else if e.Delete? then Some(c.(devices := Without(c.devices, {e.name})))
      else if e.BatchDelete? then Some(c.(devices := Without(c.devices, set n | n in e.names)))
      else
        match FindIndex(c.devices, e.name)
        case None => None
        case Some(i) =>
          if e.Update? then
            if e.changed.Some? then Some(c.(devices := c.devices[i := e.changed.value.(name := e.name)])) else None
          else
            var d := c.devices[i];
            Some(c.(devices := c.devices[i := d.(walkFile := e.walk, community := if d.community == "" then "public" else d.community)]))
  }

  /** The clone handler renames the source's NetBIOS block in place. */
  predicate WritesThrough(w: World, s: State, e: Event) {
    e.Clone? && s.config.Some? && MayAdd(w, s.config.value, e.name) &&
    var i := FindIndex(s.config.value.devices, e.source);
    i.Some? &&
    var block := s.config.value.devices[i.value].netbios;
    block.Some? && block.value.name != "" && block.value.name != w.upper(e.name)
  }

  lemma SameNamesSameIndex(a: seq<Device>, b: seq<Device>, name: string)
    requires |a| == |b| && forall i :: 0 <= i < |a| ==> a[i].name == b[i].name
    ensures FindIndex(a, name) == FindIndex(b, name)
  {
    var i, j := FindIndex(a, name), FindIndex(b, name);
    if i.Some? {
      assert b[i.value].name == name;
    }
  }

  /** A rename in place keeps names, counts, order and what the topology shows. */
  lemma RelabelKeeps(config: Option<Config>, block: Block, name: string)
    ensures var r := RelabelConfig(config, block, name);
      r.Some? == config.Some? &&
      (r.Some? ==>
        && Names(r.value) == Names(config.value)
        && Plain(r.value) == Plain(config.value)
        && DeviceCount(r.value) == DeviceCount(config.value)
        && |r.value.devices| == |config.value.devices| && r.value.segments == config.value.segments)
  {
    if config.Some? {
      var c, r := config.value, RelabelConfig(config, block, name).value;
      assert Names(r) == Names(c);
      assert Plain(r).devices == Plain(c).devices;
    }
  }

  /** The state the save starts from is the one the request met, exactly unless the
      handler writes through a block. */
  lemma BaseIsStart(w: World, s: State, e: Event)
    ensures Base(w, s, e) == s <==> !WritesThrough(w, s, e)
  {
    if e.Clone? && s.config.Some? && FindIndex(s.config.value.devices, e.source).Some? {
      var i := FindIndex(s.config.value.devices, e.source).value;
      var block := s.config.value.devices[i].netbios;
      if block.Some? && block.value.name != "" {
        var name := w.upper(e.name);
        if block.value.name == name {
          RelabelNothing(s, block.value);
        } else {
          assert Relabel(s, block.value, name).config.value.devices[i].netbios == Some(block.value.(name := name));
        }
      }
    }
  }

  lemma RelabelNothing(s: State, block: Block)
    ensures Relabel(s, block, block.name) == s
  {
    RelabelConfigNothing(s.config, block);
    RelabelConfigNothing(s.running, block);
    var t := Relabel(s, block, block.name);
    forall id | id in s.sessions ensures t.sessions[id] == s.sessions[id] {
      RelabelConfigNothing(s.sessions[id].config, block);
    }
    assert t.sessions == s.sessions;
  }

  lemma RelabelConfigNothing(config: Option<Config>, block: Block)
    ensures RelabelConfig(config, block, block.name) == config
  {
    if config.Some? {
      assert Relabeled(config.value.devices, block, block.name) == config.value.devices;
    }
  }

  /** The clone handler seen from the state it has written to. */
  lemma CloneFromBase(w: World, s: State, e: Event)
    requires e.Clone? && s.config.Some?
    ensures var b := Base(w, s, e);
            var c := Intended(w, b, e);
            && b.config.Some? && Acceptable(w, b, e) == Acceptable(w, s, e)
            && Step(w, s, e) == if c.Some? && Acceptable(w, s, e) then Saved(w, b, c.value, e.io) else b
  {
    hide Saved;
    var devices := s.config.value.devices;
    var i := FindIndex(devices, e.source);
    if i.Some? && MayAdd(w, s.config.value, e.name) {
      assert Has(devices, e.source);
      var block := devices[i.value].netbios;
      if block.Some? && block.value.name != "" {
        var r := Relabeled(devices, block.value, w.upper(e.name));
        SameNamesSameIndex(r, devices, e.source);
        SameHas(r, devices);
        RelabelKeeps(s.config, block.value, w.upper(e.name));
      }
    }
  }

  lemma SameHas(a: seq<Device>, b: seq<Device>)
    requires |a| == |b| && forall i :: 0 <= i < |a| ==> a[i].name == b[i].name
    ensures forall name :: Has(a, name) == Has(b, name)
  {
    forall name ensures Has(a, name) == Has(b, name) {
      if Has(a, name) {
        var i :| 0 <= i < |a| && a[i].name == name;
        assert b[i].name == name;
      }
      if Has(b, name) {
        var i :| 0 <= i < |b| && b[i].name == name;
        assert a[i].name == name;
      }
    }
  }

  /** Whatever fails on the way, a mutation installs its intended configuration in
      file, memory, topology and session together, or leaves all four alone --
      counting from what a clone has already written. */
  lemma MutationIsAtomic(w: World, s: State, e: Event)
    requires Faithful(w) && !e.Select? && !e.Remove?
    ensures var b := Base(w, s, e);
            Unmoved(b, Step(w, s, e)) ||
            (Intended(w, b, e).Some? && Moved(w, b, Step(w, s, e), Intended(w, b, e).value))
  {
    hide Saved, SavedAsText, Moved, Without;
    if e.Replace? {
      ReplaceIsAtomic(w, s, e);
    } else if e.Clone? {
      if s.config.Some? {
        CloneFromBase(w, s, e);
        var b := Base(w, s, e);
        if Intended(w, b, e).Some? {
          SavedAllOrNothing(w, b, Intended(w, b, e).value, e.io);
        }
      }
    } else if s.config.Some? && Intended(w, s, e).Some? {
      var c := Intended(w, s, e).value;
      SavedAllOrNothing(w, s, c, e.io);
      if e.Update? && e.raw.Some? {
        SavedAsTextAllOrNothing(w, s, c, e.name, e.raw.value, e.io);
      }
    }
  }

  /** A mutation is atomic from where it started exactly unless it clones a device
      whose NetBIOS block bears another name than the one the clone writes. */
  lemma AtomicExactlyWhen(w: World, s: State, e: Event)
    requires Faithful(w) && !e.Select? && !e.Remove?
    ensures Unmoved(s, Step(w, s, e)) ||
            (Intended(w, s, e).Some? && Moved(w, s, Step(w, s, e), Intended(w, s, e).value))
            <==> !WritesThrough(w, s, e)
  {
    BaseIsStart(w, s, e);
    MutationIsAtomic(w, s, e);
    if WritesThrough(w, s, e) {
      SourceIsRenamed(w, s, e);
    }
  }

  /** A clone that writes through a block renames the source in memory whether or not
      the request then succeeds. */
  lemma SourceIsRenamed(w: World, s: State, e: Event)
    requires Faithful(w) && WritesThrough(w, s, e)
    ensures var i := FindIndex(s.config.value.devices, e.source).value;
            var t := Step(w, s, e);
            && t.config.Some? && i < |t.config.value.devices|
            && t.config.value.devices[i].netbios == Some(s.config.value.devices[i].netbios.value.(name := w.upper(e.name)))
  {
    hide Saved, Moved, Step, Intended;
    MutationIsAtomic(w, s, e);
    IntendedKeepsPlaces(w, s, e);
    MovedInstalls(w, s, e);
  }

  lemma IntendedKeepsPlaces(w: World, s: State, e: Event)
    requires WritesThrough(w, s, e)
    ensures var b := Base(w, s, e);
            var i := FindIndex(s.config.value.devices, e.source).value;
            && b.config.Some? && i < |b.config.value.devices|
            && b.config.value.devices[i].netbios == Some(s.config.value.devices[i].netbios.value.(name := w.upper(e.name)))
            && (Intended(w, b, e).Some? ==> b.config.value.devices <= Intended(w, b, e).value.devices)
  {
  }

  lemma MovedInstalls(w: World, s: State, e: Event)
    requires !e.Select? && !e.Remove?
    ensures var b, t := Base(w, s, e), Step(w, s, e);
            && (Unmoved(b, t) ==> t.config == b.config)
            && (Intended(w, b, e).Some? && Moved(w, b, t, Intended(w, b, e).value) ==> t.config == Intended(w, b, e))
  {
    hide Step, Intended;
  }

  lemma ReplaceIsAtomic(w: World, s: State, e: Event)
    requires Faithful(w) && e.Replace?
    ensures Unmoved(s, ReplaceStep(w, s, e)) ||
            (w.load(e.content).Some? && Moved(w, s, ReplaceStep(w, s, e), w.load(e.content).value))
  {
  }

  /** The text a mutation would store, if it can produce one. */
  function TextFor(w: World, s: State, e: Event, c: Config): Option<string>
    requires !e.Select? && !e.Remove?
  {
    if e.Replace? then Some(e.content)
    else if e.Update? && e.raw.Some? && s.path in s.files && e.io.readOk then
      var spliced := w.splice(s.files[s.path], e.name, e.raw.value);
      if spliced.Some? && w.listed(spliced.value) == Some(Names(c)) then spliced else w.marshal(c)
    else w.marshal(c)
  }

  /** The request is acceptable to its handler. */
  predicate Acceptable(w: World, s: State, e: Event) {
    match e
    case Replace(content, valid, io, _) =>
      s.path != "" && valid && Fits(w, w.load(content)) && !(w.hasApply && io.apply.Refused?)
    case Create(name, _, valid, _) => valid && s.config.Some? && MayAdd(w, s.config.value, name)
    case Clone(source, name, _, valid, _) =>
      valid && s.config.Some? && MayAdd(w, s.config.value, name) && Has(s.config.value.devices, source)
    case Update(_, _, _, valid, _) => valid
    case Delete(name, _) => s.config.Some? && Has(s.config.value.devices, name)
    case BatchDelete(names, _) =>
      |names| <= 1000 && s.config.Some? && exists n :: n in names && Has(s.config.value.devices, n)
    case Attach(name, walk, _) =>
      s.config.Some? &&
      var i := FindIndex(s.config.value.devices, name);
      i.Some? && s.config.value.devices[i.value].walkFile != walk
    case _ => false
  }

  /** The request is acceptable, has a text to store and the write succeeds. */
  predicate Takes(w: World, s: State, e: Event)
    requires !e.Select? && !e.Remove?
  {
    var b := Base(w, s, e);
    var c := Intended(w, b, e);
    c.Some? && Acceptable(w, s, e) && e.io.writeOk && TextFor(w, b, e, c.value).Some?
  }

  /** A mutation moves the state exactly when it takes; the stored text is then the
      text it produced. */
  lemma MutationTakes(w: World, s: State, e: Event)
    requires Faithful(w) && !e.Select? && !e.Remove?
    ensures var b := Base(w, s, e);
            var c := Intended(w, b, e);
            if Takes(w, s, e)
            then Moved(w, b, Step(w, s, e), c.value) && Step(w, s, e).files[s.path] == TextFor(w, b, e, c.value).value
            else Unmoved(b, Step(w, s, e))
  {
    if e.Replace? {
      ReplaceTakes(w, s, e);
    } else {
      hide Step, Intended, Acceptable, TextFor, WriteAndInstall, Moved;
      StepInstalls(w, s, e);
      var b := Base(w, s, e);
      var c := Intended(w, b, e);
      if c.Some? && TextFor(w, b, e, c.value).Some? {
        TextListsDevices(w, b, e, c.value);
        InstallMoves(w, b, c.value, TextFor(w, b, e, c.value).value, e.io);
      }
    }
  }

  lemma InstallMoves(w: World, s: State, c: Config, text: string, io: Io)
    requires w.listed(text) == Some(Names(c))
    ensures var t := WriteAndInstall(w, s, c, text, io);
            if io.writeOk then Moved(w, s, t, c) && t.files[s.path] == text else t == s
  {
  }

  lemma TextListsDevices(w: World, s: State, e: Event, c: Config)
    requires Faithful(w) && !e.Select? && !e.Remove? && !e.Replace? && TextFor(w, s, e, c).Some?
    ensures w.listed(TextFor(w, s, e, c).value) == Some(Names(c))
  {
  }

  lemma StepInstalls(w: World, s: State, e: Event)
    requires !e.Select? && !e.Remove? && !e.Replace?
    ensures var b := Base(w, s, e);
            var c := Intended(w, b, e);
            && b.path == s.path
            && Step(w, s, e) ==
               if c.Some? && Acceptable(w, s, e) && TextFor(w, b, e, c.value).Some?
               then WriteAndInstall(w, b, c.value, TextFor(w, b, e, c.value).value, e.io)
               else b
  {
    hide Without, WriteAndInstall;
    if e.Clone? && s.config.Some? {
      hide Step, Intended, Acceptable;
      CloneFromBase(w, s, e);
    }
  }

  lemma ReplaceTakes(w: World, s: State, e: Event)
    requires Faithful(w) && e.Replace?
    ensures var c := w.load(e.content);
            if c.Some? && Acceptable(w, s, e) && e.io.writeOk
            then Moved(w, s, ReplaceStep(w, s, e), c.value) && ReplaceStep(w, s, e).files[s.path] == e.content
            else Unmoved(s, ReplaceStep(w, s, e))
  {
  }

  // ---------------------------------------------------------------------------
  // The invariant

  lemma {:induction false} WithoutShrinks(devices: seq<Device>, names: set<string>)
    ensures |Without(devices, names)| <= |devices|
  {
    if devices != [] {
      WithoutShrinks(devices[..|devices| - 1], names);
    }
  }

  /** No mutation that takes exceeds the budget. */
  lemma IntendedFits(w: World, s: State, e: Event)
    requires Core(w, s) && !e.Select? && !e.Remove? && Takes(w, s, e)
    ensures DeviceCount(Intended(w, Base(w, s, e), e).value) <= w.budget
    ensures s.config.Some? || s.path != ""
  {
    hide Without;
    if s.config.Some? {
      var c := s.config.value;
      if e.Delete? {
        WithoutShrinks(c.devices, {e.name});
      } else if e.BatchDelete? {
        WithoutShrinks(c.devices, set n | n in e.names);
      } else if e.Clone? {
        CloneFromBase(w, s, e);
      }
    }
  }

  /** A rename in place keeps the invariant. */
  lemma BaseKeepsCore(w: World, s: State, e: Event)
    requires Core(w, s)
    ensures Core(w, Base(w, s, e))
    ensures var b := Base(w, s, e);
            && b.files == s.files && b.path == s.path && b.selected == s.selected && b.sessions.Keys == s.sessions.Keys
            && (forall id :: id in s.sessions ==> SameShape(s.sessions[id], b.sessions[id]))
            && b.config.Some? == s.config.Some?
  {
    if Base(w, s, e) != s {
      var i := FindIndex(s.config.value.devices, e.source).value;
      RelabelKeepsCore(w, s, s.config.value.devices[i].netbios.value, w.upper(e.name));
    }
  }

  /** The same file and the same device names in the same order. */
  predicate SameShape(a: Session, b: Session) {
    a.path == b.path && a.config.Some? == b.config.Some? &&
    (a.config.Some? ==> Names(a.config.value) == Names(b.config.value))
  }

  lemma RelabelKeepsCore(w: World, s: State, block: Block, name: string)
    requires Core(w, s)
    ensures Core(w, Relabel(s, block, name))
    ensures forall id :: id in s.sessions ==> SameShape(s.sessions[id], Relabel(s, block, name).sessions[id])
  {
    hide RelabelConfig, Names, Plain, DeviceCount;
    RelabelKeeps(s.config, block, name);
    forall id | id in s.sessions
      ensures var r := RelabelConfig(s.sessions[id].config, block, name);
              r.Some? == s.sessions[id].config.Some? &&
              (r.Some? ==>
                && Names(r.value) == Names(s.sessions[id].config.value)
                && DeviceCount(r.value) == DeviceCount(s.sessions[id].config.value))
    {
      RelabelKeeps(s.sessions[id].config, block, name);
    }
  }

  /** A session that is not selected saves to the same file and is left with other
      devices than the mutation stores there. */
  predicate Strands(w: World, s: State, e: Event, id: string)
    requires !e.Select? && !e.Remove?
  {
    && id in s.sessions && id != s.selected && s.sessions[id].config.Some?
    && s.sessions[id].path == s.path
    && Takes(w, s, e)
    && Names(Intended(w, Base(w, s, e), e).value) != Names(s.sessions[id].config.value)
  }

  /** A session's file still lists its devices after a mutation through another
      session, exactly unless the mutation strands it. */
  lemma SharedPathBreaksSecondSession(w: World, s: State, e: Event, id: string)
    requires Faithful(w) && !e.Select? && !e.Remove?
    requires id in s.sessions && id != s.selected && s.sessions[id].config.Some?
    requires OnDisk(w, s, s.sessions[id].path, s.sessions[id].config.value)
    ensures OnDisk(w, Step(w, s, e), s.sessions[id].path, s.sessions[id].config.value) <==> !Strands(w, s, e, id)
  {
    hide Step, Intended, Takes, Faithful, Names;
    MutationTakes(w, s, e);
  }

  lemma MovedCore(w: World, s: State, t: State, c: Config)
    requires Core(w, s) && Moved(w, s, t, c) && DeviceCount(c) <= w.budget
    requires s.config.Some? || s.path != ""
    ensures Core(w, t) <==>
            forall id :: id in s.sessions && id != s.selected && s.sessions[id].config.Some? && s.sessions[id].path == s.path ==>
              Names(c) == Names(s.sessions[id].config.value)
  {
    hide Names, Plain, DeviceCount;
    assert forall id :: id in t.sessions <==> id in s.sessions;
    assert forall id :: id in s.sessions && id != s.selected ==> t.sessions[id] == s.sessions[id];
    if Core(w, t) {
      forall id | id in s.sessions && id != s.selected && s.sessions[id].config.Some? && s.sessions[id].path == s.path
        ensures Names(c) == Names(s.sessions[id].config.value)
      {
        assert OnDisk(w, t, t.sessions[id].path, t.sessions[id].config.value);
      }
    }
  }

  lemma UnmovedKeepsCore(w: World, s: State, t: State)
    requires Core(w, s) && Unmoved(s, t)
    ensures Core(w, t)
  {
  }

  /** A mutation keeps the invariant exactly when it strands no session. */
  lemma MutationKeepsCoreExactlyWhen(w: World, s: State, e: Event)
    requires Faithful(w) && Core(w, s) && !e.Select? && !e.Remove?
    ensures Core(w, Step(w, s, e)) <==> forall id :: id in s.sessions ==> !Strands(w, s, e, id)
  {
    hide Core, Step, Intended, Moved, Base, Names, Faithful, Acceptable, TextFor;
    BaseKeepsCore(w, s, e);
    MutationTakes(w, s, e);
    var b := Base(w, s, e);
    if Takes(w, s, e) {
      IntendedFits(w, s, e);
      MovedCore(w, b, Step(w, s, e), Intended(w, b, e).value);
    } else {
      UnmovedKeepsCore(w, b, Step(w, s, e));
    }
  }

  lemma SelectKeepsInv(w: World, s: State, id: string)
    requires Core(w, s)
    ensures Core(w, SelectStep(w, s, id))
    ensures PathsApart(s) ==> PathsApart(SelectStep(w, s, id))
  {
  }

  lemma RemoveKeepsInv(w: World, s: State, id: string)
    requires Core(w, s)
    ensures Core(w, RemoveStep(w, s, id))
    ensures PathsApart(s) ==> PathsApart(RemoveStep(w, s, id))
  {
  }

  lemma MutationKeepsPaths(w: World, s: State, e: Event)
    requires Faithful(w) && Inv(w, s) && !e.Select? && !e.Remove?
    ensures PathsApart(Step(w, s, e))
  {
    hide Step, Intended, Base, Names, Faithful, Core, Acceptable, TextFor;
    BaseKeepsCore(w, s, e);
    MutationTakes(w, s, e);
    CoreTies(w, s);
    var b, t := Base(w, s, e), Step(w, s, e);
    if Takes(w, s, e) {
      IntendedFits(w, s, e);
    }
    assert t.sessions.Keys == s.sessions.Keys && t.selected == s.selected && t.path == s.path;
    assert forall id :: id in s.sessions ==> t.sessions[id].path == s.sessions[id].path;
  }

  lemma CoreTies(w: World, s: State)
    requires Core(w, s)
    ensures s.selected in s.sessions ==> s.sessions[s.selected].path == s.path
    ensures s.selected !in s.sessions && s.config.None? ==> s.path == ""
  {
  }

  /** Sessions with files of their own are never stranded. */
  lemma ApartIsNeverStranded(w: World, s: State, e: Event, id: string)
    requires Inv(w, s) && !e.Select? && !e.Remove?
    ensures !Strands(w, s, e, id)
  {
    if Strands(w, s, e, id) {
      IntendedFits(w, s, e);
    }
  }

  lemma StepKeepsInv(w: World, s: State, e: Event)
    requires Faithful(w) && Inv(w, s)
    ensures Inv(w, Step(w, s, e))
  {
    if e.Select? {
      SelectKeepsInv(w, s, e.id);
    } else if e.Remove? {
      RemoveKeepsInv(w, s, e.id);
    } else {
      hide Core, Step, Faithful, PathsApart, Strands;
      MutationKeepsCoreExactlyWhen(w, s, e);
      forall id | id in s.sessions ensures !Strands(w, s, e, id) {
        ApartIsNeverStranded(w, s, e, id);
      }
      MutationKeepsPaths(w, s, e);
    }
  }

  /** Over every run the file lists memory's devices in order, the topology is the
      one built from memory, the selected session holds the configuration in
      memory, and no configuration exceeds the device budget. */
  lemma {:induction false} RunsKeepInv(w: World, s: State, events: seq<Event>)
    requires Faithful(w) && Inv(w, s)
    ensures Inv(w, Run(w, s, events))
    decreases |events|
  {
    hide Inv, Step, Faithful;
    if events != [] {
      StepKeepsInv(w, s, events[0]);
      RunsKeepInv(w, Step(w, s, events[0]), events[1..]);
    }
  }

  predicate StrandsNobody(w: World, s: State, e: Event) {
    e.Select? || e.Remove? || forall id :: id in s.sessions ==> !Strands(w, s, e, id)
  }

  predicate RunStrandsNobody(w: World, s: State, events: seq<Event>)
    decreases |events|
  {
    events == [] || (StrandsNobody(w, s, events[0]) && RunStrandsNobody(w, Step(w, s, events[0]), events[1..]))
  }

  predicate CoreThroughout(w: World, s: State, events: seq<Event>)
    decreases |events|
  {
    Core(w, s) && (events == [] || CoreThroughout(w, Step(w, s, events[0]), events[1..]))
  }

  /** Whatever files the sessions share, the invariant holds throughout a run exactly
      when no step of it strands a session. */
  lemma {:induction false} RunsKeepCoreExactlyWhen(w: World, s: State, events: seq<Event>)
    requires Faithful(w) && Core(w, s)
    ensures CoreThroughout(w, s, events) <==> RunStrandsNobody(w, s, events)
    decreases |events|
  {
    hide Core, Step, Faithful, Strands;
    if events != [] {
      var e := events[0];
      StepKeepsCoreExactlyWhen(w, s, e);
      if Core(w, Step(w, s, e)) {
        RunsKeepCoreExactlyWhen(w, Step(w, s, e), events[1..]);
      } else {
        assert !CoreThroughout(w, Step(w, s, e), events[1..]);
      }
    }
  }

  lemma StepKeepsCoreExactlyWhen(w: World, s: State, e: Event)
    requires Faithful(w) && Core(w, s)
    ensures Core(w, Step(w, s, e)) <==> StrandsNobody(w, s, e)
  {
    if e.Select? {
      SelectKeepsInv(w, s, e.id);
    } else if e.Remove? {
      RemoveKeepsInv(w, s, e.id);
    } else {
      MutationKeepsCoreExactlyWhen(w, s, e);
    }
  }

  // ---------------------------------------------------------------------------
  // Names

  predicate DistinctDevices(devices: seq<Device>) {
    forall i, j :: 0 <= i < j < |devices| ==> devices[i].name != devices[j].name
  }

  lemma {:induction false} WithoutKeepsOrder(devices: seq<Device>, names: set<string>)
    ensures DistinctDevices(devices) ==> DistinctDevices(Without(devices, names))
    ensures forall d :: d in Without(devices, names) <==> d in devices && d.name !in names
  {
    if devices != [] {
      var front, last := devices[..|devices| - 1], devices[|devices| - 1];
      WithoutKeepsOrder(front, names);
      var kept := Without(front, names);
      assert forall d :: d in devices <==> d in front || d == last;
      if DistinctDevices(devices) && last.name !in names {
        forall i | 0 <= i < |kept| ensures kept[i].name != last.name {
          assert kept[i] in front;
          var j :| 0 <= j < |front| && front[j] == kept[i];
          assert devices[j] == front[j];
        }
      }
    }
  }

  /** Device requests never make two devices share a name. */
  lemma DeviceStepKeepsNamesDistinct(w: World, s: State, e: Event)
    requires Faithful(w) && !e.Select? && !e.Remove? && !e.Replace?
    requires s.config.Some? && DistinctDevices(s.config.value.devices)
    ensures Step(w, s, e).config.Some? && DistinctDevices(Step(w, s, e).config.value.devices)
  {
    hide Step, Intended, Base, Takes, Faithful, DistinctDevices;
    BaseKeepsDistinct(w, s, e);
    MutationTakes(w, s, e);
    if Takes(w, s, e) {
      IntendedIsDistinct(w, s, e);
    }
  }

  lemma BaseKeepsDistinct(w: World, s: State, e: Event)
    requires s.config.Some? && DistinctDevices(s.config.value.devices)
    ensures Base(w, s, e).config.Some? && DistinctDevices(Base(w, s, e).config.value.devices)
  {
  }

  lemma IntendedIsDistinct(w: World, s: State, e: Event)
    requires !e.Select? && !e.Remove? && !e.Replace? && Takes(w, s, e)
    requires s.config.Some? && DistinctDevices(s.config.value.devices)
    ensures DistinctDevices(Intended(w, Base(w, s, e), e).value.devices)
  {
    hide Without;
    var c := s.config.value;
    if e.Delete? {
      WithoutKeepsOrder(c.devices, {e.name});
    } else if e.BatchDelete? {
      WithoutKeepsOrder(c.devices, set n | n in e.names);
    } else if e.Clone? {
      CloneFromBase(w, s, e);
      BaseKeepsDistinct(w, s, e);
      hide Base;
      NewNameIsDistinct(Base(w, s, e).config.value.devices, e.name);
    }
  }

  lemma NewNameIsDistinct(devices: seq<Device>, name: string)
    requires DistinctDevices(devices) && !Has(devices, name)
    ensures forall d: Device :: d.name == name ==> DistinctDevices(devices + [d])
  {
  }

  lemma {:induction false} DeviceRunsKeepNamesDistinct(w: World, s: State, events: seq<Event>)
    requires Faithful(w) && s.config.Some? && DistinctDevices(s.config.value.devices)
    requires forall e :: e in events ==> !e.Select? && !e.Remove? && !e.Replace?
    ensures Run(w, s, events).config.Some? && DistinctDevices(Run(w, s, events).config.value.devices)
    decreases |events|
  {
    hide Step, Faithful;
    if events != [] {
      DeviceStepKeepsNamesDistinct(w, s, events[0]);
      DeviceRunsKeepNamesDistinct(w, Step(w, s, events[0]), events[1..]);
    }
  }

  // ---------------------------------------------------------------------------
  // The runtime

  /** The runtime took over every configuration this request handed it. */
  predicate NeverRefused(e: Event) {
    e.Select? || e.Remove? || (e.io.apply.Took? && (e.Replace? ==> e.rollback.Took?))
  }

  /** When the runtime never refuses, a mutation keeps it on the configuration in
      memory exactly unless it is a replacement whose write fails while no
      configuration was loaded, where nothing is left to roll back to. */
  lemma RuntimeFollowsMemory(w: World, s: State, e: Event)
    requires Faithful(w) && w.hasApply && !e.Select? && !e.Remove? && NeverRefused(e) && s.running == s.config
    ensures Step(w, s, e).running == Step(w, s, e).config <==>
            !(e.Replace? && s.config.None? && s.path != "" && w.load(e.content).Some? &&
              DeviceCount(w.load(e.content).value) <= w.budget && e.valid && !e.io.writeOk)
  {
    hide Without;
  }

  lemma {:induction false} RuntimeFollowsMemoryOverRuns(w: World, s: State, events: seq<Event>)
    requires Faithful(w) && w.hasApply && s.config.Some? && s.running == s.config
    requires forall e :: e in events ==> !e.Select? && !e.Remove? && NeverRefused(e)
    ensures var t := Run(w, s, events); t.config.Some? && t.running == t.config
    decreases |events|
  {
    hide Step, Faithful;
    if events != [] {
      var e := events[0];
      RuntimeFollowsMemory(w, s, e);
      MutationIsAtomic(w, s, e);
      RuntimeFollowsMemoryOverRuns(w, Step(w, s, e), events[1..]);
    }
  }

  // ---------------------------------------------------------------------------
  // What each request asks for, and what it then does

  /** All devices of the segments, one after another. */
  function Flat(segments: seq<seq<Device>>): seq<Device> {
    if segments == [] then [] else segments[0] + Flat(segments[1..])
  }

  lemma {:induction false} SumIsFlat(segments: seq<seq<Device>>)
    ensures Sum(segments) == |Flat(segments)|
  {
    if segments != [] {
      SumIsFlat(segments[1..]);
    }
  }

  /** A segmented configuration, a full one and one that has the name take no
      addition. */
  lemma AdditionRefused(w: World, s: State, e: Event)
    requires (e.Create? || e.Clone?) && s.config.Some?
    requires var c := s.config.value;
             c.segments != [] || |c.devices| >= w.budget || exists i :: 0 <= i < |c.devices| && c.devices[i].name == e.name
    ensures Step(w, s, e) == s
  {
    hide Saved;
  }

  /** A device is created exactly on a loaded configuration without segments, below the
      budget, under a new name, if it can be built and is valid, a text can be written
      for the longer configuration and the write succeeds. */
  lemma CreateExactly(w: World, s: State, e: Event)
    requires e.Create? && s.config.Some?
    ensures var c, t := s.config.value, Step(w, s, e);
            if c.segments == [] && |c.devices| < w.budget && (forall i :: 0 <= i < |c.devices| ==> c.devices[i].name != e.name)
               && e.built.Some? && e.valid && e.io.writeOk
               && w.marshal(c.(devices := c.devices + [e.built.value.(name := e.name)])).Some?
            then
              var longer := c.(devices := c.devices + [e.built.value.(name := e.name)]);
              t.config == Some(longer) && t.files == s.files[s.path := w.marshal(longer).value]
            else t == s
  {
  }

  /** The same for a clone, which copies the record its source has by then. A clone
      that does not come about leaves names and order as they were. */
  lemma CloneExactly(w: World, s: State, e: Event)
    requires e.Clone? && s.config.Some?
    ensures var c, t := s.config.value, Step(w, s, e);
            && t.config.Some?
            && var after := t.config.value;
            if c.segments == [] && |c.devices| < w.budget && (forall i :: 0 <= i < |c.devices| ==> c.devices[i].name != e.name)
               && FindIndex(c.devices, e.source).Some? && e.valid && e.io.writeOk
               && w.marshal(Intended(w, Base(w, s, e), e).value).Some?
            then
              var i := FindIndex(c.devices, e.source).value;
              && |after.devices| == |c.devices| + 1
              && Names(after) == Names(c) + [e.name]
              && after.devices[|c.devices|] == after.devices[i].(name := e.name, rest := e.rest)
            else Names(after) == Names(c) && t.files == s.files
  {
    hide Saved, Step, Base, Acceptable, Intended, Names;
    CloneFromBase(w, s, e);
    BaseKeepsNames(w, s, e);
    CloneAcceptable(w, s, e);
    var c, b := s.config.value, Base(w, s, e);
    SameNamesSameFind(c, b.config.value, e.source);
    if FindIndex(c.devices, e.source).Some? {
      CloneIntended(w, b, e, Names(c), FindIndex(c.devices, e.source).value);
      SavesOrNot(w, b, Intended(w, b, e).value, e.io);
    }
  }

  lemma BaseKeepsNames(w: World, s: State, e: Event)
    requires s.config.Some?
    ensures var b := Base(w, s, e);
            && b.config.Some? && Names(b.config.value) == Names(s.config.value) && b.files == s.files && b.path == s.path
            && |b.config.value.devices| == |s.config.value.devices|
  {
    if Base(w, s, e) != s {
      var i := FindIndex(s.config.value.devices, e.source).value;
      RelabelKeeps(s.config, s.config.value.devices[i].netbios.value, w.upper(e.name));
    }
  }

  lemma CloneAcceptable(w: World, s: State, e: Event)
    requires e.Clone? && s.config.Some?
    ensures var c := s.config.value;
            Acceptable(w, s, e) <==>
            c.segments == [] && |c.devices| < w.budget && e.valid && FindIndex(c.devices, e.source).Some? &&
            forall i :: 0 <= i < |c.devices| ==> c.devices[i].name != e.name
  {
    var devices := s.config.value.devices;
    if FindIndex(devices, e.source).Some? {
      assert devices[FindIndex(devices, e.source).value].name == e.source;
    }
  }

  lemma CloneIntended(w: World, b: State, e: Event, names: seq<string>, i: nat)
    requires e.Clone? && b.config.Some? && Names(b.config.value) == names && FindIndex(b.config.value.devices, e.source) == Some(i)
    ensures Intended(w, b, e).Some?
    ensures var longer := Intended(w, b, e).value;
            && |longer.devices| == |names| + 1 && Names(longer) == names + [e.name] && i < |names|
            && longer.devices[|names|] == longer.devices[i].(name := e.name, rest := e.rest)
  {
    var longer := Intended(w, b, e).value;
    assert Names(longer) == names + [e.name];
  }

  lemma SavesOrNot(w: World, b: State, c: Config, io: Io)
    ensures var t := Saved(w, b, c, io);
            if w.marshal(c).Some? && io.writeOk then t.config == Some(c) else t == b
  {
  }

  lemma SameNamesSameFind(a: Config, b: Config, name: string)
    requires Names(a) == Names(b)
    ensures FindIndex(a.devices, name) == FindIndex(b.devices, name)
  {
    assert |a.devices| == |Names(a)| == |b.devices|;
    assert forall i :: 0 <= i < |a.devices| ==> a.devices[i].name == Names(a)[i] == b.devices[i].name;
    SameNamesSameIndex(a.devices, b.devices, name);
  }

  /** An update puts the changed device, under its old name, in the place of the first
      device of that name. */
  lemma UpdateExactly(w: World, s: State, e: Event, i: nat)
    requires e.Update? && s.config.Some? && i < |s.config.value.devices| && s.config.value.devices[i].name == e.name
    requires forall j :: 0 <= j < i ==> s.config.value.devices[j].name != e.name
    ensures var c, t := s.config.value, Step(w, s, e);
            if e.changed.Some? && e.valid then
              t == s || t.config == Some(c.(devices := c.devices[i := e.changed.value.(name := e.name)]))
            else t == s
  {
    var c := s.config.value;
    assert FindIndex(c.devices, e.name) == Some(i);
  }

  /** Attaching a walk changes that device's walk, and its community only if it had none. */
  lemma AttachExactly(w: World, s: State, e: Event, i: nat)
    requires e.Attach? && s.config.Some? && i < |s.config.value.devices| && s.config.value.devices[i].name == e.name
    requires forall j :: 0 <= j < i ==> s.config.value.devices[j].name != e.name
    ensures var c, t := s.config.value, Step(w, s, e);
            var d := c.devices[i];
            var attached := Device(e.name, e.walk, if d.community == "" then "public" else d.community, d.netbios, d.rest);
            var after := c.(devices := c.devices[i := attached]);
            if d.walkFile != e.walk && e.io.writeOk && w.marshal(after).Some? then t.config == Some(after) else t == s
  {
    var c := s.config.value;
    assert FindIndex(c.devices, e.name) == Some(i);
  }

  /** Deleting keeps every device of another name, in its order. */
  lemma DeleteExactly(w: World, s: State, e: Event)
    requires (e.Delete? || e.BatchDelete?) && s.config.Some?
    ensures var c, t := s.config.value, Step(w, s, e);
            var names := if e.Delete? then {e.name} else set n | n in e.names;
            var after := c.(devices := Without(c.devices, names));
            if (exists d :: d in c.devices && d.name in names) && (e.Delete? || |e.names| <= 1000)
               && e.io.writeOk && w.marshal(after).Some?
            then t.config == Some(after) else t == s
  {
    hide Without;
    var devices := s.config.value.devices;
    var names := if e.Delete? then {e.name} else set n | n in e.names;
    assert (exists n :: n in names && Has(devices, n)) <==> exists d :: d in devices && d.name in names by {
      if n :| n in names && Has(devices, n) {
        var i :| 0 <= i < |devices| && devices[i].name == n;
        assert devices[i] in devices;
      }
      if d :| d in devices && d.name in names {
        var i :| 0 <= i < |devices| && devices[i] == d;
        assert Has(devices, d.name);
      }
    }
  }

  /** A whole replacement is installed exactly with a file to write to, a text that
      loads and fits the budget, counting the segments' devices if there are segments,
      a configuration the runtime takes, and a good write. */
  lemma ReplaceExactly(w: World, s: State, e: Event)
    requires e.Replace?
    ensures var t := Step(w, s, e);
            var c := w.load(e.content);
            if s.path != "" && c.Some? && e.valid && e.io.writeOk && (w.hasApply ==> e.io.apply.Took?)
               && |if c.value.segments == [] then c.value.devices else Flat(c.value.segments)| <= w.budget
            then t.config == c && t.files == s.files[s.path := e.content]
            else t.config == s.config && t.files == s.files
  {
    if w.load(e.content).Some? {
      SumIsFlat(w.load(e.content).value.segments);
    }
  }

  /** The topology is drawn from every device, in order, and from everything about each
      but its NetBIOS block. */
  lemma PlainExactly(c: Config)
    ensures var p := Plain(c);
            && p.segments == c.segments && p.settings == c.settings && |p.devices| == |c.devices|
            && forall i :: 0 <= i < |c.devices| ==>
                 var d := c.devices[i];
                 p.devices[i] == Device(d.name, d.walkFile, d.community, None, d.rest)
  {
  }

  /** Selecting a known session shows it; an unknown one changes nothing. */
  lemma SelectShows(w: World, s: State, id: string)
    ensures var t := Step(w, s, Select(id));
            if id in s.sessions then
              && t.selected == id && t.config == s.sessions[id].config && t.path == s.sessions[id].path
              && t.graph == (if t.config.Some? then w.build(Plain(t.config.value)) else Graph(""))
              && t.files == s.files && t.sessions == s.sessions && t.running == s.running
            else t == s
  {
  }

  /** Removing a session forgets it alone, and shows nothing if it was the selected one. */
  lemma RemoveForgets(w: World, s: State, id: string)
    ensures var t := Step(w, s, Remove(id));
            && t.sessions == s.sessions - {id} && t.files == s.files && t.running == s.running
            && if id == s.selected then t.selected == "" && t.config == None && t.path == "" && t.graph == Graph("")
               else t.selected == s.selected && t.config == s.config && t.path == s.path && t.graph == s.graph
  {
  }

  /** Removal goes device by device, so what is left keeps its order. */
  lemma {:induction false} WithoutConcat(a: seq<Device>, b: seq<Device>, names: set<string>)
    ensures Without(a + b, names) == Without(a, names) + Without(b, names)
    ensures |a| == 1 ==> Without(a, names) == if a[0].name in names then [] else a
  {
    if |a| == 1 {
      assert a[..0] == [];
    }
    if b == [] {
      assert a + b == a;
    } else {
      var front := b[..|b| - 1];
      WithoutConcat(a, front, names);
      assert (a + b)[..|a + b| - 1] == a + front;
    }
  }

  // ---------------------------------------------------------------------------
  // Segmented configurations

  predicate DeviceRequest(e: Event) {
    !e.Select? && !e.Remove? && !e.Replace?
  }

  /** The requests of a run that add no device. */
  function WithoutAdditions(events: seq<Event>): seq<Event> {
    if events == [] then []
    else (if events[0].Create? || events[0].Clone? then [] else [events[0]]) + WithoutAdditions(events[1..])
  }

  lemma DeviceStepKeepsSegments(w: World, s: State, e: Event)
    requires DeviceRequest(e) && s.config.Some?
    ensures Step(w, s, e).config.Some? && Step(w, s, e).config.value.segments == s.config.value.segments
  {
    hide Step, Base, Acceptable, TextFor, Intended;
    StepInstalls(w, s, e);
    BaseKeepsSegments(w, s, e);
    if Intended(w, Base(w, s, e), e).Some? {
      IntendedKeepsSegments(w, Base(w, s, e), e);
    }
  }

  lemma BaseKeepsSegments(w: World, s: State, e: Event)
    requires s.config.Some?
    ensures Base(w, s, e).config.Some? && Base(w, s, e).config.value.segments == s.config.value.segments
  {
  }

  lemma IntendedKeepsSegments(w: World, b: State, e: Event)
    requires DeviceRequest(e) && b.config.Some? && Intended(w, b, e).Some?
    ensures Intended(w, b, e).value.segments == b.config.value.segments
  {
    hide Without;
  }

  /** On a segmented configuration creations and clones do nothing, anywhere in a run
      of device requests: it ends as if they had not been sent. */
  lemma {:induction false} SegmentedTakesNoAddition(w: World, s: State, events: seq<Event>)
    requires s.config.Some? && s.config.value.segments != [] && forall e :: e in events ==> DeviceRequest(e)
    ensures Run(w, s, events) == Run(w, s, WithoutAdditions(events))
    decreases |events|
  {
    hide Step;
    if events != [] {
      var e := events[0];
      var rest := WithoutAdditions(events[1..]);
      if e.Create? || e.Clone? {
        AdditionRefused(w, s, e);
        assert [] + rest == rest;
      } else {
        DeviceStepKeepsSegments(w, s, e);
        assert ([e] + rest)[0] == e && ([e] + rest)[1..] == rest;
      }
      SegmentedTakesNoAddition(w, Step(w, s, e), events[1..]);
    }
  }

  // ---------------------------------------------------------------------------
  // Inputs at which the stronger readings fail

  const SOURCE := Device("a", "", "", Some(Block(0, "OLD")), "")

  const LOADED := Config([SOURCE], [], "")

  /** A world that can write only a configuration without devices. */
  function SmallWorld(): World {
    World(
      (c: Config) => if c.devices == [] then Some("none") else None,
      (t: string) => None,
      (t: string) => Some(if t == "none" then [] else ["a"]),
      (t: string, name: string, raw: string) => None,
      (c: Config) => Graph("g"),
      (t: string) => "NEW",
      2, false)
  }

  /** Two sessions show the same file; the first is selected. */
  function SharedState(): State {
    var session := Session(Some(LOADED), "f");
    State(map["f" := "one"], "f", Some(LOADED), Graph("g"), map["x" := session, "y" := session], "x", None)
  }

  lemma SmallWorldIsFaithful()
    ensures Faithful(SmallWorld()) && Core(SmallWorld(), SharedState())
  {
    var w := SmallWorld();
    forall c | w.marshal(c).Some? ensures w.listed(w.marshal(c).value) == Some(Names(c)) {
      assert Names(c) == [];
    }
    assert Names(LOADED) == ["a"];
    assert DeviceCount(LOADED) == 1;
  }

  /** Deleting the device through one session strands the other. */
  lemma SharedFileStrands(io: Io)
    requires io.writeOk
    ensures var e := Delete("a", io);
            Strands(SmallWorld(), SharedState(), e, "y") && !Core(SmallWorld(), Step(SmallWorld(), SharedState(), e))
  {
    var w, s, e := SmallWorld(), SharedState(), Delete("a", io);
    SmallWorldIsFaithful();
    assert LOADED.devices == [SOURCE] && Has(LOADED.devices, "a") by { assert LOADED.devices[0].name == "a"; }
    assert LOADED.devices[..0] == [] && Without(LOADED.devices, {"a"}) == [];
    assert Names(LOADED) == ["a"] && Names(LOADED.(devices := [])) == [];
    MutationKeepsCoreExactlyWhen(w, s, e);
  }

  /** A clone refused by validation has renamed its source in memory all the same. */
  lemma RefusedCloneRenames(io: Io)
    ensures var e := Clone("a", "b", "", false, io);
            var t := Step(SmallWorld(), SharedState(), e);
            && WritesThrough(SmallWorld(), SharedState(), e)
            && t.files == SharedState().files
            && t.config == Some(LOADED.(devices := [SOURCE.(netbios := Some(Block(0, "NEW")))]))
  {
    var w, s, e := SmallWorld(), SharedState(), Clone("a", "b", "", false, io);
    assert LOADED.devices == [SOURCE] && FindIndex(LOADED.devices, "a") == Some(0);
    assert Relabeled(LOADED.devices, Block(0, "OLD"), "NEW") == [SOURCE.(netbios := Some(Block(0, "NEW")))];
    assert MayAdd(w, LOADED, "b");
  }
}
