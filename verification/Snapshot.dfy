/** Configurations on the heap. A handler copies the live configuration, edits the
    copy and swaps the pointer, so a pointer handed out earlier keeps reading the
    same devices -- although `deepCopyDevice` copies only some fields and shares
    the protocol blocks. Cloning is the exception: it writes through a shared block. */
module Snapshot {
  import opened Text

  /** A protocol block that devices point to and edits replace as a whole. */
  class Block {
    const text: string

    constructor (text: string)
      ensures this.text == text
    {
      this.text := text;
    }
  }

  /** The one block a handler writes into. */
  class NetBios {
    var name: string

    constructor (name: string)
      ensures this.name == name
    {
      this.name := name;
    }
  }

  /** A device record: plain fields, a slice the copy duplicates (`ips`), a slice and
      blocks it shares (`walkFiles`, `lldp`, `netbios`). */
  datatype Device = Device(
    name: string, kind: string, ips: array?<string>,
    walkFile: string, community: string, sysName: string, walkFiles: array?<string>,
    lldp: Block?, netbios: NetBios?)

  class ConfigObject {
    const devices: array<Device>

    constructor (devices: array<Device>)
      ensures this.devices == devices
    {
      this.devices := devices;
    }
  }

  // ---------------------------------------------------------------------------
  // What a reader sees

  datatype DeviceValue = DeviceValue(
    name: string, kind: string, ips: Option<seq<string>>,
    walkFile: string, community: string, sysName: string, walkFiles: Option<seq<string>>,
    lldp: Option<string>, netbios: Option<string>)

  ghost function Slices(d: Device): set<object> {
    (if d.ips != null then {d.ips} else {}) + (if d.walkFiles != null then {d.walkFiles} else {})
  }

  ghost function Refs(d: Device): set<object> {
    Slices(d) + (if d.netbios != null then {d.netbios} else {})
  }

  function Contents(slice: array?<string>): Option<seq<string>>
    reads slice
  {
    if slice == null then None else Some(slice[..])
  }

  function Value(d: Device): DeviceValue
    reads d.ips, d.walkFiles, d.netbios
  {
    DeviceValue(
      d.name, d.kind, Contents(d.ips), d.walkFile, d.community, d.sysName, Contents(d.walkFiles),
      if d.lldp == null then None else Some(d.lldp.text),
      if d.netbios == null then None else Some(d.netbios.name))
  }

  ghost function RefsOf(devices: seq<Device>): set<object> {
    set i, o | 0 <= i < |devices| && o in Refs(devices[i]) :: o
  }

  /** Everything reachable from the devices of a configuration, as values. */
  ghost function Reading(c: ConfigObject): (r: seq<DeviceValue>)
    reads c.devices, RefsOf(c.devices[..])
    ensures |r| == c.devices.Length
    ensures forall i :: 0 <= i < |r| ==> r[i] == Value(c.devices[i])
  {
    seq(c.devices.Length,
        i requires 0 <= i < c.devices.Length && Refs(c.devices[i]) <= RefsOf(c.devices[..])
          reads c.devices, RefsOf(c.devices[..]) =>
          Value(c.devices[i]))
  }

  // ---------------------------------------------------------------------------
  // Copying

  method CopySlice(slice: array?<string>) returns (copy: array?<string>)
    ensures Contents(copy) == Contents(slice)
    ensures copy != null ==> fresh(copy)
  {
    if slice == null {
      return null;
    }
    var a := new string[slice.Length](i requires 0 <= i < slice.Length reads slice => slice[i]);
    assert a[..] == slice[..];
    copy := a;
  }

  /** `copy` is `d` with the duplicated slice replaced by an equal fresh one. */
  twostate predicate CopyOf(d: Device, new copy: Device)
    reads d.ips, copy.ips
  {
    && copy == d.(ips := copy.ips)
    && Contents(copy.ips) == old(Contents(d.ips))
    && (copy.ips != null ==> fresh(copy.ips))
  }

  /** `deepCopyConfig` */
  method DeepCopyConfig(c: ConfigObject) returns (copy: ConfigObject)
    ensures fresh(copy) && fresh(copy.devices) && copy.devices.Length == c.devices.Length
    ensures forall i :: 0 <= i < c.devices.Length ==> CopyOf(c.devices[i], copy.devices[i])
  {
    var n := c.devices.Length;
    var a := new Device[n](i requires 0 <= i < n reads c.devices => c.devices[i]);
    for i := 0 to n
      invariant forall j :: 0 <= j < i ==> CopyOf(c.devices[j], a[j])
    {
      var ips := CopySlice(c.devices[i].ips);
      a[i] := c.devices[i].(ips := ips);
    }
    copy := new ConfigObject(a);
  }

  /** The copy reads like the original, which is untouched. */
  method Fork(c: ConfigObject) returns (copy: ConfigObject)
    ensures fresh(copy) && fresh(copy.devices)
    ensures Reading(copy) == old(Reading(c)) && Reading(c) == old(Reading(c))
  {
    hide Reading, RefsOf;
    ghost var before := Reading(c);
    copy := DeepCopyConfig(c);
    assert forall i :: 0 <= i < |before| ==> Value(copy.devices[i]) == before[i];
    assert Reading(copy) == before;
  }

  /** Writing one record changes what is read at that index and nowhere else. */
  method SetDevice(c: ConfigObject, index: nat, d: Device)
    requires index < c.devices.Length
    modifies c.devices
    ensures Reading(c) == old(Reading(c))[index := old(Value(d))]
  {
    hide Reading, RefsOf;
    c.devices[index] := d;
  }

  // ---------------------------------------------------------------------------
  // Editing

  /** The ways a device request changes a record. */
  datatype Edit =
    | SetKind(kind: string)
    | SetIps(ips: seq<string>)
    | SetSnmp(walkFile: string, community: string, sysName: string, walkFiles: seq<string>)
    | SetLldp(text: string)
    | SetNetBios(name: string)
    | DropNetBios
    | AttachWalk(path: string)

  function Edited(v: DeviceValue, e: Edit): DeviceValue {
    match e
    case SetKind(kind) => v.(kind := kind)
    case SetIps(ips) => v.(ips := Some(ips))
    case SetSnmp(walkFile, community, sysName, walkFiles) =>
      v.(walkFile := walkFile, community := community, sysName := sysName, walkFiles := Some(walkFiles))
    case SetLldp(text) => v.(lldp := Some(text))
    case SetNetBios(name) => v.(netbios := Some(name))
    case DropNetBios => v.(netbios := None)
    case AttachWalk(path) => v.(walkFile := path, community := if v.community == "" then "public" else v.community)
  }

  /** What was set is read back, and nothing else changes. */
  lemma EditReadsBack(v: DeviceValue, e: Edit)
    ensures var r := Edited(v, e);
            && r.name == v.name
            && (e.SetKind? ==> r.kind == e.kind) && (!e.SetKind? ==> r.kind == v.kind)
            && (e.SetIps? ==> r.ips == Some(e.ips)) && (!e.SetIps? ==> r.ips == v.ips)
            && (e.SetLldp? ==> r.lldp == Some(e.text)) && (!e.SetLldp? ==> r.lldp == v.lldp)
            && (e.SetNetBios? ==> r.netbios == Some(e.name)) && (e.DropNetBios? ==> r.netbios == None)
            && (!e.SetNetBios? && !e.DropNetBios? ==> r.netbios == v.netbios)
            && (e.SetSnmp? ==> r.sysName == e.sysName && r.walkFiles == Some(e.walkFiles))
            && (!e.SetSnmp? ==> r.sysName == v.sysName && r.walkFiles == v.walkFiles)
            && (e.SetSnmp? ==> r.walkFile == e.walkFile && r.community == e.community)
            && (e.AttachWalk? ==> r.walkFile == e.path && r.community == if v.community == "" then "public" else v.community)
            && (!e.SetSnmp? && !e.AttachWalk? ==> r.walkFile == v.walkFile && r.community == v.community)
  {
  }

  method NewSlice(items: seq<string>) returns (slice: array<string>)
    ensures fresh(slice) && slice[..] == items
  {
    slice := new string[|items|](i requires 0 <= i < |items| => items[i]);
  }

  /** `applyPartialDeviceUpdate` and the edit of `attachWalkToDevice`: blocks and
      slices are replaced by new ones, never written into. */
  method ApplyEdit(d: Device, e: Edit) returns (edited: Device)
    ensures Value(edited) == Edited(old(Value(d)), e)
    ensures forall o :: o in Refs(edited) ==> o in Refs(d) || fresh(o)
  {
    match e
    case SetKind(kind) => edited := d.(kind := kind);
    case SetIps(ips) =>
      var slice := NewSlice(ips);
      edited := d.(ips := slice);
    case SetSnmp(walkFile, community, sysName, walkFiles) =>
      var slice := NewSlice(walkFiles);
      edited := d.(walkFile := walkFile, community := community, sysName := sysName, walkFiles := slice);
    case SetLldp(text) =>
      var block := new Block(text);
      edited := d.(lldp := block);
    case SetNetBios(name) =>
      var block := new NetBios(name);
      edited := d.(netbios := block);
    case DropNetBios => edited := d.(netbios := null);
    case AttachWalk(path) =>
      edited := d.(walkFile := path, community := if d.community == "" then "public" else d.community);
  }

  method EditCopy(c: ConfigObject, index: nat, e: Edit)
    requires index < c.devices.Length
    modifies c.devices
    ensures Reading(c) == old(Reading(c))[index := Edited(old(Reading(c))[index], e)]
  {
    hide Reading, RefsOf, Edited;
    ghost var before := Reading(c);
    var edited := ApplyEdit(c.devices[index], e);
    assert Reading(c) == before;
    SetDevice(c, index, edited);
  }

  // ---------------------------------------------------------------------------
  // Removing

  function Mentioned(hostnames: seq<string>): set<string> {
    set n | n in hostnames
  }

  /** The records that bear none of these names, in order. */
  function Kept(devices: seq<Device>, names: set<string>): seq<Device> {
    if devices == [] then []
    else
      var front, last := Kept(devices[..|devices| - 1], names), devices[|devices| - 1];
      if last.name in names then front else front + [last]
  }

  function KeptValues(values: seq<DeviceValue>, names: set<string>): seq<DeviceValue> {
    if values == [] then []
    else
      var front, last := KeptValues(values[..|values| - 1], names), values[|values| - 1];
      if last.name in names then front else front + [last]
  }

  /** `removeDeviceByHostname` on the records of a copied configuration. */
  method RemoveByHostname(devices: seq<Device>, hostname: string) returns (kept: seq<Device>, found: bool)
    ensures kept == Kept(devices, {hostname})
    ensures found <==> exists i :: 0 <= i < |devices| && devices[i].name == hostname
  {
    kept, found := [], false;
    for i := 0 to |devices|
      invariant kept == Kept(devices[..i], {hostname})
      invariant found <==> exists j :: 0 <= j < i && devices[j].name == hostname
    {
      assert devices[..i + 1][..i] == devices[..i];
      if devices[i].name == hostname {
        found := true;
      } else {
        kept := kept + [devices[i]];
      }
    }
    assert devices[..|devices|] == devices;
  }

  lemma {:induction false} KeptTwice(devices: seq<Device>, a: set<string>, b: set<string>)
    ensures Kept(Kept(devices, a), b) == Kept(devices, a + b)
  {
    if devices != [] {
      var front, last := devices[..|devices| - 1], devices[|devices| - 1];
      KeptTwice(front, a, b);
      if last.name !in a {
        var kept := Kept(front, a) + [last];
        assert kept[..|kept| - 1] == Kept(front, a);
      }
    }
  }

  lemma {:induction false} KeptAll(devices: seq<Device>)
    ensures Kept(devices, {}) == devices
  {
    if devices != [] {
      KeptAll(devices[..|devices| - 1]);
    }
  }

  /** The batch loop over one list of records. */
  method RemoveEach(devices: seq<Device>, hostnames: seq<string>) returns (kept: seq<Device>, deleted: nat)
    ensures kept == Kept(devices, Mentioned(hostnames))
    ensures deleted == 0 ==> kept == devices
  {
    kept, deleted := devices, 0;
    KeptAll(devices);
    assert Mentioned(hostnames[..0]) == {};
    for i := 0 to |hostnames|
      invariant kept == Kept(devices, Mentioned(hostnames[..i]))
      invariant deleted == 0 ==> kept == devices
    {
      var smaller, found := RemoveByHostname(kept, hostnames[i]);
      ghost var earlier := Mentioned(hostnames[..i]);
      KeptTwice(devices, earlier, {hostnames[i]});
      assert hostnames[..i + 1] == hostnames[..i] + [hostnames[i]];
      assert Mentioned(hostnames[..i + 1]) == earlier + {hostnames[i]};
      if found {
        kept := smaller;
        deleted := deleted + 1;
      } else {
        NothingToRemove(kept, hostnames[i]);
      }
    }
    assert hostnames[..|hostnames|] == hostnames;
  }

  lemma {:induction false} NothingToRemove(devices: seq<Device>, hostname: string)
    requires forall i :: 0 <= i < |devices| ==> devices[i].name != hostname
    ensures Kept(devices, {hostname}) == devices
  {
    if devices != [] {
      NothingToRemove(devices[..|devices| - 1], hostname);
    }
  }

  /** Removal goes device by device and keeps the order. */
  lemma {:induction false} KeptValuesConcat(a: seq<DeviceValue>, b: seq<DeviceValue>, names: set<string>)
    ensures KeptValues(a + b, names) == KeptValues(a, names) + KeptValues(b, names)
    ensures |a| == 1 ==> KeptValues(a, names) == if a[0].name in names then [] else a
  {
    if |a| == 1 {
      assert a[..0] == [];
    }
    if b == [] {
      assert a + b == a;
    } else {
      var front := b[..|b| - 1];
      KeptValuesConcat(a, front, names);
      assert (a + b)[..|a + b| - 1] == a + front;
    }
  }

  /** Filtering records filters what is read. */
  lemma {:induction false} KeptReads(records: seq<Device>, values: seq<DeviceValue>, names: set<string>)
    requires |records| == |values| && forall i :: 0 <= i < |records| ==> Value(records[i]) == values[i]
    ensures var kept, read := Kept(records, names), KeptValues(values, names);
            |kept| == |read| && forall i :: 0 <= i < |kept| ==> Value(kept[i]) == read[i]
  {
    if records != [] {
      var n := |records| - 1;
      KeptReads(records[..n], values[..n], names);
    }
  }

  class Server {
    var config: ConfigObject

    constructor (config: ConfigObject)
      ensures this.config == config
    {
      this.config := config;
    }

    /** `replaceConfig` swaps the pointer. */
    method Install(c: ConfigObject)
      modifies this`config
      ensures config == c && Reading(config) == old(Reading(c))
    {
      hide Reading, RefsOf;
      ghost var records, values := c.devices[..], Reading(c);
      assert forall i :: 0 <= i < |records| ==> Value(records[i]) == values[i];
      config := c;
      assert forall i :: 0 <= i < |records| ==> Value(records[i]) == values[i];
      ReadingOfRecords(c, records, values);
    }

    /** The update handlers and the walk attachment. The frame is the pointer alone:
        no object that existed before is written. */
    method Update(index: nat, e: Edit)
      requires index < config.devices.Length
      modifies this`config
      ensures fresh(config)
      ensures Reading(config) == old(Reading(config))[index := Edited(old(Reading(config))[index], e)]
    {
      hide Reading, RefsOf, Edited, Value;
      var copy := Fork(config);
      EditCopy(copy, index, e);
      Install(copy);
    }

    /** `handleDeviceDelete` and `handleDeviceBatchDelete`: one copy, every removal on
        it, one swap, and only if something was removed. */
    method Delete(hostnames: seq<string>)
      modifies this`config
      ensures Reading(config) == KeptValues(old(Reading(config)), Mentioned(hostnames))
    {
      hide Reading, RefsOf, Kept, KeptValues;
      ghost var names, before := Mentioned(hostnames), Reading(config);
      var copy := DeepCopyConfig(config);
      var records := copy.devices[..];
      assert forall i :: 0 <= i < |before| ==> Value(records[i]) == before[i];
      var kept, deleted := RemoveEach(records, hostnames);
      KeptReads(records, before, names);
      if deleted > 0 {
        var smaller := Assembled(kept, KeptValues(before, names));
        Install(smaller);
      } else {
        assert KeptValues(before, names) == before;
      }
    }

    /** `handleDeviceClone` and `cloneDevice`. The record is copied, the NetBIOS block
        is not: a block with a name is renamed in place, under the live
        configuration and under every pointer handed out before. */
    method Clone(index: nat, newName: string, upper: string -> string)
      requires index < config.devices.Length
      modifies this`config, config.devices[index].netbios
      ensures fresh(config)
      ensures Reading(config) ==
              Reading(old(config)) + [Cloned(old(Reading(config))[index], newName, upper)]
      ensures Reading(old(config)) == Renamed(old(config), old(config.devices[index].netbios), old(Reading(config)), newName, upper)
    {
      hide Reading, RefsOf, Renamed, Cloned;
      var original := config;
      var cloned := CloneRecord(original, index, newName, upper);
      var longer := Append(original, cloned);
      ghost var records, after := original.devices[..], Reading(original);
      assert forall i :: 0 <= i < |records| ==> Value(records[i]) == after[i];
      Install(longer);
      assert forall i :: 0 <= i < |records| ==> Value(records[i]) == after[i];
      ReadingOfRecords(original, records, after);
    }
  }

  /** `cloneDevice` */
  method CloneRecord(c: ConfigObject, index: nat, newName: string, upper: string -> string) returns (cloned: Device)
    requires index < c.devices.Length
    modifies c.devices[index].netbios
    ensures Value(cloned) == Cloned(old(Reading(c))[index], newName, upper)
    ensures Reading(c) == Renamed(c, old(c.devices[index].netbios), old(Reading(c)), newName, upper)
  {
    hide Reading, RefsOf;
    cloned := c.devices[index].(name := newName);
    if cloned.sysName != "" {
      cloned := cloned.(sysName := newName);
    }
    if cloned.netbios != null && cloned.netbios.name != "" {
      cloned.netbios.name := upper(newName);
    }
  }

  function Cloned(v: DeviceValue, newName: string, upper: string -> string): DeviceValue {
    v.(name := newName, sysName := if v.sysName != "" then newName else "",
       netbios := if v.netbios.Some? && v.netbios.value != "" then Some(upper(newName)) else v.netbios)
  }

  /** A clone takes the new name wherever the source had one of its own, and keeps the
      rest. */
  lemma CloneReads(v: DeviceValue, newName: string, upper: string -> string)
    ensures var r := Cloned(v, newName, upper);
            && r.name == newName
            && r.sysName == (if v.sysName == "" then "" else newName)
            && (v.netbios == None || v.netbios == Some("") ==> r.netbios == v.netbios)
            && (v.netbios.Some? && v.netbios != Some("") ==> r.netbios == Some(upper(newName)))
            && (r.kind, r.ips, r.walkFile, r.community, r.walkFiles, r.lldp)
            == (v.kind, v.ips, v.walkFile, v.community, v.walkFiles, v.lldp)
  {
  }

  /** The reading of a configuration after one NetBIOS block was renamed: every
      device that points to the block shows the new name. */
  ghost function Renamed(
    c: ConfigObject, block: NetBios?, before: seq<DeviceValue>, newName: string, upper: string -> string): (r: seq<DeviceValue>)
    requires |before| == c.devices.Length
    reads c.devices
    ensures |r| == |before|
  {
    seq(|before|, i requires 0 <= i < |before| reads c.devices =>
      if block != null && c.devices[i].netbios == block && before[i].netbios.Some? && before[i].netbios.value != ""
      then before[i].(netbios := Some(upper(newName)))
      else before[i])
  }

  /** A copy of the configuration with one more device. */
  method Append(c: ConfigObject, d: Device) returns (longer: ConfigObject)
    ensures fresh(longer) && fresh(longer.devices)
    ensures Reading(longer) == old(Reading(c)) + [old(Value(d))]
    ensures Reading(c) == old(Reading(c))
  {
    hide Reading, RefsOf;
    ghost var last := Value(d);
    var copy := Fork(c);
    assert Value(d) == last;
    ghost var records, values := c.devices[..], Reading(c);
    assert forall i :: 0 <= i < |records| ==> Value(records[i]) == values[i];
    longer := Lengthened(copy, d);
    ReadingOfRecords(c, records, values);
  }

  method Lengthened(c: ConfigObject, d: Device) returns (longer: ConfigObject)
    ensures fresh(longer) && fresh(longer.devices)
    ensures Reading(longer) == old(Reading(c)) + [old(Value(d))]
  {
    hide Reading, RefsOf;
    ghost var records, values := c.devices[..] + [d], Reading(c) + [Value(d)];
    assert forall i :: 0 <= i < |records| ==> Value(records[i]) == values[i];
    var devices := Extend(c.devices, d);
    longer := new ConfigObject(devices);
    ReadingOfRecords(longer, records, values);
  }

  lemma ReadingOfRecords(c: ConfigObject, records: seq<Device>, values: seq<DeviceValue>)
    requires c.devices[..] == records && |records| == |values|
    requires forall i :: 0 <= i < |records| ==> Value(records[i]) == values[i]
    ensures Reading(c) == values
  {
    hide Reading, RefsOf;
    assert forall i :: 0 <= i < |records| ==> c.devices[i] == records[i];
  }

  /** A configuration of these records. */
  method Assembled(records: seq<Device>, ghost values: seq<DeviceValue>) returns (c: ConfigObject)
    requires |records| == |values| && forall i :: 0 <= i < |records| ==> Value(records[i]) == values[i]
    ensures fresh(c) && fresh(c.devices) && Reading(c) == values
  {
    hide Reading, RefsOf;
    var devices := new Device[|records|](i requires 0 <= i < |records| => records[i]);
    c := new ConfigObject(devices);
    assert c.devices[..] == records;
    ReadingOfRecords(c, records, values);
  }

  method Extend(devices: array<Device>, d: Device) returns (longer: array<Device>)
    ensures fresh(longer) && longer[..] == devices[..] + [d]
  {
    var n := devices.Length;
    longer := new Device[n + 1](i requires 0 <= i < n + 1 reads devices => if i < n then devices[i] else d);
  }

  /** Cloning keeps an earlier pointer's reading exactly when the source carries no
      NetBIOS name or already carries the one the clone writes. */
  lemma CloneKeepsReadingExactlyWhen(
    c: ConfigObject, index: nat, before: seq<DeviceValue>, newName: string, upper: string -> string)
    requires index < c.devices.Length == |before|
    requires before[index].netbios.Some? <==> c.devices[index].netbios != null
    requires forall i :: 0 <= i < |before| && c.devices[i].netbios == c.devices[index].netbios ==>
               before[i].netbios == before[index].netbios
    ensures Renamed(c, c.devices[index].netbios, before, newName, upper) == before <==>
            before[index].netbios.None? || before[index].netbios.value == "" ||
            before[index].netbios.value == upper(newName)
  {
    var after := Renamed(c, c.devices[index].netbios, before, newName, upper);
    if before[index].netbios.Some? && before[index].netbios.value != "" {
      assert after[index] == before[index].(netbios := Some(upper(newName)));
    }
  }

  /** A device request that does not clone. */
  datatype Request = Change(index: nat, edit: Edit) | Drop(hostnames: seq<string>)

  /** Snapshot isolation over runs: whatever requests follow, a configuration
      pointer taken before them reads the same afterwards. */
  method Serve(server: Server, requests: seq<Request>, snapshot: ConfigObject)
    modifies server`config
    ensures Reading(snapshot) == old(Reading(snapshot))
  {
    hide Reading, RefsOf;
    ghost var records, values := snapshot.devices[..], Reading(snapshot);
    for i := 0 to |requests|
      invariant snapshot.devices[..] == records
      invariant forall j :: 0 <= j < |records| ==> Value(records[j]) == values[j]
    {
      match requests[i]
      case Drop(hostnames) => server.Delete(hostnames);
      case Change(index, edit) =>
        if index < server.config.devices.Length {
          server.Update(index, edit);
        }
    }
    ReadingOfRecords(snapshot, records, values);
  }
}
