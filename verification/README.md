# NIAC: verified models of its parsing, parity, configuration and selection logic

NIAC simulates networks of devices from a YAML configuration that a daemon
serves and edits over an HTTP API; scripts beside it analyse captures, gate the
user interface against the configuration schema and build content bundles. This
project models the parts of that code with the most state, recursion or
arithmetic, and proves what they are for. Each module follows the form of the
file it models: loops and in-place updates are methods and classes proved
against a specification function, pure code is functions with lemmas.

| module | what it models |
|---|---|
| `Ber`, `Snmp`, `OidDemand` | the BER reader, the SNMP request decoder and its encoder, and the demand count over a capture |
| `Schema`, `LeafWalk`, `EditorForm`, `Parity`, `DeviceParity` | the parity gate's walk over the schema, the form generator's walk over the same schema, and the proof that they agree |
| `GateCoverage`, `EditorCycles` | what the gate skips and what stands in for it; on which cyclic schemas the generator ends |
| `ConfigState`, `ConfigRuns`, `ConfigServer` | every configuration mutation of the API as a step, the invariants of all runs, and the server object that takes those steps |
| `Snapshot` | the same mutations on the heap: which objects a configuration shares with the one before it |
| `Alerts` | the packet-threshold alert and its cooldown |
| `Attachment` | the attachment policy grammar and the admission of a list of policies |
| `ReverseDeps` | the packages a change affects |
| `WalkRebase`, `WalkPlaces` | rewriting a draft's walk references onto the content library; where in the tree those references are |
| `Routes` | matching of API routes and consumers with wildcards |
| `GeneratedRegion` | replacing the text between two markers |
| `MergeByName`, `WalkBundle` | merging configurations by device name; choosing walks for a bundle |
| `Text`, `Sets` | decimal numbers, splitting and joining; set sizes |

## Where the code departs from its description

These are results about the code as it is; each has a lemma.

- **A second arc of 40 or more is misread.** `decode_oid` splits the first octet
  as quotient and remainder by 40, so `2.48.1` comes back as `3.8.1`. The round
  trip holds if and only if every second arc is below 40 (`Snmp.ExactRoundTrip`,
  `Snmp.SecondArcAbove39IsMisread`).
- **A truncated last arc is dropped silently** rather than refused: trailing octets
  go unread if and only if none of them is below 0x80 (`Ber.TruncatedArcIsDropped`).
- **A stray octet ends the whole count.** Where a value should start and exactly one
  octet is left, the reader runs off the buffer, which is not a `BERError`, so the
  datagram is not counted as undecodable: no result is written. This happens if and
  only if the payload, the message, the PDU, the binding list or a binding ends in
  such an octet (`Snmp.RunsOffExactlyWhen`, `OidDemand.TallyCapture`); the one-octet
  payload and `30 01 02` are instances (`OidDemand.OneOctetAborts`).
- **The four printed counts need not add up to the datagrams.** A mapped
  datagram that decodes to no binding is in none of them; they add up if and only
  if there is no such datagram (`OidDemand.PrintedCountsAddUp`), and any response to
  a mapped address is one (`OidDemand.OtherPduIsSilent`).
- **Two sessions on one file**: a mutation through one leaves the other's memory
  and file apart if and only if it takes and changes the names
  (`ConfigRuns.SharedPathBreaksSecondSession`, instance
  `ConfigRuns.SharedFileStrands`); the invariant holds throughout a run if and only
  if no step of it does that (`ConfigRuns.RunsKeepCoreExactlyWhen`).
- **A failed write with no configuration loaded leaves the runtime on the new
  configuration**, since there is nothing to roll back to
  (`ConfigRuns.RuntimeFollowsMemory`, if and only if).
- **Cloning a device writes through a shared NetBIOS block**, before the request is
  validated and saved. Memory, sessions and runtime show the source renamed even
  when the clone is refused or its write fails, and earlier configuration objects
  change too, unless the block is absent, unnamed or already bears the new name. A
  mutation is atomic if and only if it is no such clone
  (`ConfigRuns.AtomicExactlyWhen`, instance `ConfigRuns.RefusedCloneRenames`;
  `Snapshot.CloneKeepsReadingExactlyWhen`).
- **A draft whose `include_path` is not a scalar loses what is written below it** when
  it is rebased; all other references come back one by one, each naming the same file
  (`WalkRebase.RebasedNamesSameFiles`).
- **A body that contains the end marker moves the cut** for the next replacement
  (`GeneratedRegion.LastReplacementWins`, if and only if).
- **The form generator covers a schema node if and only if** its arrays have
  `items`, enums sit on plain values and kinds are known
  (`Parity.CoveredExactlyWhenAgreeing`).
- **The form generator does not end on every cyclic schema.** It cuts a property
  whose reference it is inside, but a list item's reference is never recorded. It
  ends if and only if no node comes back to itself through inline nodes and list
  items alone (`EditorCycles.DescribeEndsExactlyWhen`, instances
  `EditorCycles.ListCycleNeverEnds` and `EditorCycles.PropertyCycleIsCut`).
- **`is_base_of` looks only at a slash route's own segments.** It finds the consumers
  that stop short of a path of the route, if and only if it is not a slash route
  whose segments the consumer already covers (`Routes.BaseIsStrictPrefix`, instance
  `Routes.SlashRouteMissesBase`).
- **Merging is not associative at a repeated name** of the middle configuration: only
  its first device is replaced. Two ways of merging find the same device if and only
  if the third configuration does not have the name, the middle one has it once, or
  its last such device equals the third's (`MergeByName.MergeIsAssociative`, instance
  `MergeByName.RepeatedNameBreaksAssociativity`).

## What the model takes as given

- Bytes are integers 0..255; arcs, sizes and counts are unbounded integers, as in
  Python. Times are integers in nanoseconds.
- A schema is a tree of nodes with references by definition name (the last part of
  `#/$defs/NAME`). Paths are sequences of keys and list elements;
  `Schema.RenderInjective` shows that for names without `.`, `[` and `]` the
  printed paths distinguish exactly what the sequences do.
- `ConfigState.World` holds the functions the handlers call and this project does
  not define: the YAML writer and reader, the probe that lists the device names of
  a text, the fragment splice, the topology builder, upper-casing, the device budget
  and whether a runtime is attached. The topology builder is given the configuration
  without its NetBIOS blocks, which internal/topology/topology.go never reads. The one assumption, `Faithful`, is that text written for a
  configuration, and text a configuration was read from, lists its device names.
- Whether a request's device is well formed, a read or write succeeds and a runtime
  call is refused are inputs of each step, so every theorem is for all of them. A
  refused runtime call may leave the runtime with any configuration.
- `WalkRebase.Library` holds `filepath.Rel`, `filepath.Join` and the question
  whether a walk can be read, as arbitrary functions; `filepath.ToSlash` is the
  identity, as it is where `/` separates paths.
- `upper` is an arbitrary function standing for `strings.ToUpper`.
- A request refused before it reaches the mutation lock is no step.
- A script's recursion is modelled with three outcomes: it ends, it raises `KeyError`
  at a reference without a definition, or it is still at work. Where the depth is not
  bounded by the schema the specification takes a depth, and a method is proved for
  any depth its recursion stays within.

## Model

| member | source | states |
|---|---|---|
| Ber.ReadLength | scripts/extract-oid-demand.py:54-62 | runs off the end exactly when no length octet is left; a length that is read ends inside the buffer, past its start |
| Ber.ReadTlv | scripts/extract-oid-demand.py:65-72 | a value read stays inside the buffer and advances by at least two plus its length; it runs off the end exactly when the tag is the last octet |
| Ber.ReadEncoded | scripts/test-extract-oid-demand.py:26-30 | wherever an encoded value lies in a buffer it is read back with its tag, content and end if its length is below 2^32, and refused otherwise |
| Ber.ReadIgnoresSuffix | scripts/extract-oid-demand.py:65-72 | octets appended to a buffer never change a value that could be read |
| Ber.ReadTruncated | scripts/extract-oid-demand.py:65-72 | no strict prefix of a value can be read: one octet runs off the end, any other prefix is malformed |
| Ber.ReadExactlyWhen | scripts/extract-oid-demand.py:54-72 | a value is read if and only if the buffer holds its tag, one length octet below 0x80 or a count of one to four with that many length octets, and that many octets of content |
| Ber.BigEndianIsShortest | scripts/test-extract-oid-demand.py:29 | the encoder writes no leading zero in a length |
| Ber.ArcIsShortest | scripts/test-extract-oid-demand.py:37-42 | the encoder pads no arc, and an arc below 128 is one octet |
| Ber.PaddingIsIgnored | scripts/extract-oid-demand.py:81-85 | a leading 0x80 octet of an arc adds nothing |
| Ber.InternetIdentifier | scripts/extract-oid-demand.py:75-86 | 2B 06 01 is reported as .1.3.6.1 |
| Ber.DecodeOid | scripts/extract-oid-demand.py:75-86 | the loop computes the recursive base-128 reading of the octets, and refuses the empty identifier |
| Ber.EncodeArc | scripts/test-extract-oid-demand.py:37-42 | the shift loop and its reversal give the most-significant-first base-128 octets that ArcListRoundTrip reads back |
| Ber.EncodeOid | scripts/test-extract-oid-demand.py:33-43 | the loop over the arcs gives exactly the octets that OidRoundTrip decodes |
| Ber.ArcListRoundTrip | scripts/extract-oid-demand.py:80-85 | reading the octets of any list of unbounded arcs gives that list |
| Ber.OidDecodesRefolded | scripts/extract-oid-demand.py:79-86 | any encodable identifier decodes to itself with its first two arcs split again by 40 |
| Ber.OidRoundTrip | scripts/extract-oid-demand.py:75-86 | an encodable identifier decodes to its own dotted text if and only if its second arc is below 40 |
| Ber.DottedRoundTrip | scripts/test-extract-oid-demand.py:34 | parsing the dotted text of any arc list gives that list |
| Ber.TruncatedArcIsDropped | scripts/extract-oid-demand.py:80-86 | trailing octets change nothing that is decoded if and only if none of them is below 0x80 |
| Snmp.DecodeBindings | scripts/extract-oid-demand.py:111-118 | the varbind loop ends on every buffer and collects, in order, the identifier of each binding, stopping at the first failure |
| Snmp.DecodeRequest | scripts/extract-oid-demand.py:89-118 | equals the specification RequestDemand with its three outcomes, which DecodesExactlyWhen and RunsOffExactlyWhen pin down on every payload |
| Snmp.DecodesExactlyWhen | scripts/extract-oid-demand.py:89-118 | of all payloads exactly those decode to a list that start with a SEQUENCE whose third value is a request PDU, whose fourth value is a SEQUENCE of varbinds with complete first values, and the list is the identifiers among these, in order, under the PDU's name |
| Snmp.RequestRoundTrip | scripts/extract-oid-demand.py:89-118 | for every version, community, ids and identifier list below 2^32 octets, tag A0 decodes to get, A1 to getnext, A3 to set and A5 to getbulk with each identifier in order, any other tag to the empty list, and a longer message to Malformed |
| Snmp.ExactRoundTrip | scripts/test-extract-oid-demand.py:46-49 | for each of the four tags and its name, the decoded list is exactly the requested one if and only if every second arc is below 40 |
| Snmp.SecondArcAbove39IsMisread | scripts/extract-oid-demand.py:79 | 2.48.1 encodes and decodes to 3.8.1 |
| Snmp.TrailingOctetsIgnored | scripts/extract-oid-demand.py:95 | octets after a message that decodes never change the result |
| Snmp.PrefixNeverDecodes | scripts/extract-oid-demand.py:89-118 | no strict prefix of an encoded message decodes; the outcome of each prefix is exact |
| Snmp.BindingsRunOff | scripts/extract-oid-demand.py:112-117 | the varbind loop runs off the end if and only if after some varbinds it gets past there is one octet, or a varbind of one octet |
| Snmp.RunsOffExactlyWhen | scripts/extract-oid-demand.py:89-118 | decoding runs off the end if and only if some buffer it opens, from the payload down to a binding, has exactly one octet where it expects a value |
| Snmp.NestedOctetRunsOff | scripts/extract-oid-demand.py:95-101 | 30 01 02 runs off the end |
| OidDemand.AddKeys | scripts/extract-oid-demand.py:212-213 | the counter holds each key's number of occurrences in everything counted so far plus the new keys, and no other key |
| OidDemand.BucketExactly | scripts/extract-oid-demand.py:196-213 | by VLAN, destination and octets alone: the seven pack VLANs, unmapped addresses, stray octets, and each requested identifier filed under pack, role, PDU name and identifier; anything else is undecodable |
| OidDemand.CountOne | scripts/extract-oid-demand.py:192-213 | one datagram raises exactly its own counters, or ends the count exactly when it goes to a mapped address and its payload has such a stray octet |
| OidDemand.TallyCapture | scripts/extract-oid-demand.py:186-213 | there is no result if and only if some datagram to a mapped address has a stray octet; otherwise every counter equals the number of datagrams of its kind and every demand entry its number of requests |
| OidDemand.PrintedCountsAddUp | scripts/extract-oid-demand.py:219-224 | the datagrams are the four printed counts plus the silent ones, and equal the four alone if and only if no mapped datagram decodes to an empty list |
| OidDemand.OtherPduIsSilent | scripts/extract-oid-demand.py:102-104 | any well-formed message of another PDU type to a mapped address is counted in none of the four |
| OidDemand.DemandIsConserved | scripts/extract-oid-demand.py:212-213 | the counts of the demand matrix sum to the number of requested identifiers |
| OidDemand.OneOctetAborts | scripts/extract-oid-demand.py:205-209 | every one-octet payload, and 30 01 02, to a mapped address ends the count |
| Schema.FollowReferences | scripts/check-authoring-parity.py:84-88 | wherever the loop ends it reaches the first node without a reference, or raises at a missing definition |
| Schema.LoopsExactlyOnCycle | scripts/check-authoring-parity.py:84-88 | the loop is still at a reference after any number of rounds if and only if the references reached from the start come back to a name |
| Schema.GoalExactly | scripts/check-authoring-parity.py:84-88 | the loop ends at a node if and only if references lead to it and it is none, and raises if and only if they lead to a name without a definition |
| Schema.AcyclicIsClosed | scripts/gen-device-editor-sections.py:162-165 | in an acyclic schema every reference, at any depth, resolves |
| Schema.RenderInjective | scripts/check-authoring-parity.py:117-125 | for plain names, two paths print alike only if they are the same path |
| LeafWalk.SameSegmentSameText | scripts/check-authoring-parity.py:109 | comparing the printed text after the last dot is comparing the last path segment with its list marks |
| LeafWalk.Walker.Visit | scripts/check-authoring-parity.py:97-127 | on any schema, dangling references included, the recursion updates leaves and first paths exactly as the specification Walk, or raises exactly when it does |
| LeafWalk.CollectLeaves | scripts/check-authoring-parity.py:91-130 | the gate's leaves are those of the specification walk from the root, or it raises |
| LeafWalk.GateEnds | scripts/check-authoring-parity.py:97-127 | the walk ends on every schema, mutually recursive definitions included, in which no references form a cycle by themselves |
| LeafWalk.LeavesAreReal | scripts/check-authoring-parity.py:91-130 | every leaf the gate lists is a path that exists in the schema, following references |
| EditorForm.DescribeField | scripts/gen-device-editor-sections.py:168-210 | on every schema on which the recursion ends, cyclic ones included, the outcome is that of the specification DescribeIn |
| EditorForm.KindExactly | scripts/gen-device-editor-sections.py:170-210 | which kind of field a property gets, each kind if and only if its condition on the resolved node holds |
| EditorForm.FuelIsEnough | scripts/gen-device-editor-sections.py:168-210 | an outcome reached within some depth is the outcome at every greater depth |
| EditorForm.DescribeEnds | scripts/gen-device-editor-sections.py:168-210 | on an acyclic schema the recursion ends, with the descriptor Describe |
| EditorForm.GeneratedEnds | scripts/gen-device-editor-sections.py:228-238 | on an acyclic schema the manifest's fields are all described |
| EditorForm.DescribeChildren | scripts/gen-device-editor-sections.py:213-219 | lists the descriptors of the properties that have one, in order, or fails with the first failing property |
| EditorForm.BuildSections | scripts/gen-device-editor-sections.py:222-242 | the sections are the object, list and map fields in order, behind one device section holding the others when there are any; hand-bound properties have no field; a missing definition raises |
| EditorForm.ArrangeOrder | scripts/gen-device-editor-sections.py:234-241 | the values share the first section in their order, and every other field is a section at its place in the order |
| EditorForm.PathCollector.Visit | scripts/gen-device-editor-sections.py:257-267 | appends exactly the field's paths to the paths already there |
| EditorForm.PathCollector.VisitAll | scripts/gen-device-editor-sections.py:260-265 | appends the paths of each child below its own name, in order |
| EditorForm.PathCollector.Collect | scripts/gen-device-editor-sections.py:253-276 | appends the manifest's paths over all sections |
| EditorCycles.DescribeEndsExactlyWhen | scripts/gen-device-editor-sections.py:168-219 | where references resolve, describing a node ends if and only if no node below comes back to itself through inline nodes and list items alone |
| EditorCycles.ManifestEndsExactlyWhen | scripts/gen-device-editor-sections.py:222-242 | the manifest is finished if and only if no property that is not hand-bound is endless in that sense |
| EditorCycles.ListCycleNeverEnds | scripts/gen-device-editor-sections.py:188-194 | a definition that lists itself is not finished at any depth |
| EditorCycles.PropertyCycleIsCut | scripts/gen-device-editor-sections.py:170-173 | a definition with itself as a property is described, without that property |
| EditorCycles.CutPropertyIsOnlyListed | scripts/check-authoring-parity.py:99-101 | on that schema the gate lists the path at which it stops, for which the generator has no field |
| Parity.GateListsSpelled | scripts/check-authoring-parity.py:91-130 | on an acyclic schema the gate ends and every listed leaf is one of the leaves spelled out without any stack or deduplication |
| GateCoverage.GateTellsEveryLeaf | scripts/check-authoring-parity.py:103-111 | on an acyclic schema every spelled leaf is listed, or leads to a listed one by exchanging an entry into a definition for another entry into it under the same last segment |
| GateCoverage.NoLeafBelowRepeat | scripts/check-authoring-parity.py:103-111 | no listed leaf lies below an entry into a definition that was first entered elsewhere under the same last segment |
| Parity.AgreeingFieldPaths | scripts/gen-device-editor-sections.py:168-267 | for a node the two walks agree on, the generated field exists and its paths are the spelled leaves in the same order |
| Parity.CoveredAgrees | scripts/gen-device-editor-sections.py:168-267 | if every spelled leaf below a node is covered then the node satisfies the agreement condition at every depth |
| Parity.CoveredExactlyWhenAgreeing | scripts/gen-device-editor-sections.py:168-276 | the generated field covers every spelled leaf if and only if arrays carry items, enums sit on plain values and kinds are known, at every depth |
| DeviceParity.ArrangedPaths | scripts/gen-device-editor-sections.py:222-276 | dividing fields into sections neither loses nor adds a path, if no section is named device |
| DeviceParity.ManifestPaths | scripts/gen-device-editor-sections.py:222-276 | the manifest holds a path if and only if some property that is not hand-bound describes a field with it |
| DeviceParity.DeviceLeafHasOneOwner | scripts/gen-device-editor-sections.py:52-59 | every spelled leaf of a device is hand-bound or in the manifest, never both |
| DeviceParity.GateLeafHasOneOwner | scripts/check-authoring-parity.py:91-130 | every devices leaf the gate lists, over the whole schema, is hand-bound or in the manifest, never both |
| DeviceParity.ManifestCoversExactlyWhenAgreeing | scripts/gen-device-editor-sections.py:222-276 | the manifest covers all leaves of all properties that are not hand-bound if and only if each of those properties satisfies the agreement condition |
| DeviceParity.HandPathsPrinted | scripts/gen-device-editor-sections.py:52-59 | hand-bound paths print as the gate spells them, with the list mark on ips |
| ConfigRuns.MutationIsAtomic | internal/api/devices_helpers.go:408-503 | counting from what a clone has written through a shared block, every mutation either changes nothing but the runtime, or moves file, memory, topology and selected session together to the configuration the request meant |
| ConfigRuns.AtomicExactlyWhen | internal/api/devices_helpers.go:655-662 | a mutation is atomic from the state it met if and only if it does not clone a device whose NetBIOS block bears another name than the one the clone writes |
| ConfigRuns.SourceIsRenamed | internal/api/devices.go:417-438 | such a clone renames its source in memory whether or not it is refused or fails |
| ConfigRuns.RefusedCloneRenames | internal/api/devices.go:425-430 | a clone refused by validation that has renamed its source |
| ConfigRuns.MutationTakes | internal/api/devices.go:117-453 | a mutation moves the state exactly when its handler accepts it, a text can be produced and the write succeeds, and the file then holds that text |
| ConfigRuns.AdditionRefused | internal/api/devices_helpers.go:35-63 | a create or clone on a segmented configuration, at the budget or under an existing name changes nothing |
| ConfigRuns.CreateExactly | internal/api/devices_helpers.go:35-187 | a device is appended and its text written if and only if there are no segments, room in the budget, a new name, a valid device, a text and a good write; otherwise nothing changes |
| ConfigRuns.CloneExactly | internal/api/devices.go:397-440 | likewise for a clone, which is its source's record under the new name; otherwise names and files stay |
| ConfigRuns.UpdateExactly | internal/api/devices.go:151-230 | an update that takes puts the changed device, under its old name, in the place of the first of that name |
| ConfigRuns.AttachExactly | internal/api/handlers_synthesize_walk.go:320-341 | the device's walk changes, and its community becomes public only if it was empty |
| ConfigRuns.DeleteExactly | internal/api/devices.go:254-376 | every device of a requested name goes if and only if there is one, the batch has at most 1000 names, and the write succeeds |
| ConfigRuns.ReplaceExactly | internal/api/handlers_read.go:186-306 | a replacement is installed if and only if there is a file, the text loads, its devices or those of its segments fit the budget, the runtime takes it and the write succeeds |
| ConfigRuns.SegmentedTakesNoAddition | internal/api/devices_helpers.go:45-55 | a run of device requests on a segmented configuration ends as if its creates and clones had not been sent |
| ConfigRuns.PlainExactly | internal/api/config_state.go:135 | the topology is drawn from every device in order and all of each but its NetBIOS block |
| ConfigRuns.IntendedFits | internal/api/devices_helpers.go:35-63 | a mutation that takes keeps the device count within the budget |
| ConfigRuns.SelectKeepsInv | internal/api/simulation_state.go:25-35 | selecting a session keeps the invariant |
| ConfigRuns.RemoveKeepsInv | internal/api/simulation_state.go:40-49 | removing a session, selected or not, keeps the invariant |
| ConfigRuns.SelectShows | internal/api/simulation_state.go:25-62 | selecting a known session shows its configuration, path and topology and changes nothing else; an unknown one changes nothing |
| ConfigRuns.RemoveForgets | internal/api/simulation_state.go:40-62 | removing a session forgets it alone, and shows nothing if it was selected |
| ConfigRuns.MutationKeepsCoreExactlyWhen | internal/api/config_state.go:132-141 | whatever files sessions share, a mutation keeps the invariant if and only if it strands no session |
| ConfigRuns.RunsKeepCoreExactlyWhen | internal/api/config_state.go:62-141 | the invariant holds throughout a run if and only if no step of it strands a session |
| ConfigRuns.StepKeepsInv | internal/api/config_state.go:62-141 | each request, with any failures, keeps the invariant: files list the names of memory in order, topology is built from memory, the selected session holds memory, all within budget, sessions with files of their own |
| ConfigRuns.RunsKeepInv | internal/api/config_state.go:62-141 | the invariant holds after every sequence of requests and failures |
| ConfigRuns.WithoutKeepsOrder | internal/api/devices.go:235-251 | removal keeps exactly the devices not named, and keeps names distinct |
| ConfigRuns.WithoutConcat | internal/api/devices.go:240-248 | removal goes device by device, so what is left keeps its order |
| ConfigRuns.DeviceStepKeepsNamesDistinct | internal/api/devices_helpers.go:35-63 | every device request keeps device names pairwise distinct and a configuration loaded |
| ConfigRuns.DeviceRunsKeepNamesDistinct | internal/api/devices.go:117-453 | so does every sequence of device requests |
| ConfigRuns.RuntimeFollowsMemory | internal/api/handlers_read.go:282-306 | with no runtime refusal the runtime holds the in-memory configuration afterwards, if and only if it is not an otherwise acceptable replacement whose write fails with nothing loaded |
| ConfigRuns.RuntimeFollowsMemoryOverRuns | internal/api/handlers_read.go:282-306 | once a configuration is loaded, the runtime follows memory over every such sequence, failed writes included |
| ConfigRuns.SharedPathBreaksSecondSession | internal/api/config_state.go:132-141 | a session that is not selected stays described by its file if and only if the mutation does not take, goes to another file or stores the same names |
| ConfigRuns.SharedFileStrands | internal/api/config_state.go:132-141 | two sessions on one file, and a deletion through the first that strands the second |
| ConfigServer.FindDeviceIndex | internal/api/devices_helpers.go:221-229 | the first index that bears the name, or -1 exactly when there is none |
| ConfigServer.RemoveDeviceByHostname | internal/api/devices.go:235-251 | the devices without that name in their order, and whether there was one |
| ConfigServer.SameDeviceNames | internal/api/devices_helpers.go:450-472 | true exactly when the text lists the configuration's names in order |
| ConfigServer.RemoveBatch | internal/api/devices.go:328-357 | the list is one filter by the requested names; only the first mention of an existing name succeeds; deleted is the number of distinct existing names and deleted plus failed the request length |
| ConfigServer.BatchOrderDoesNotMatter | internal/api/devices.go:328-357 | the devices left and the number deleted do not depend on order or repetition in the request |
| ConfigServer.Server.ReplaceConfig | internal/api/config_state.go:132-141 | memory, topology and the selected session's configuration change together, nothing else |
| ConfigServer.Server.WriteConfigFile | internal/api/config_state.go:62-111 | the file is replaced whole or not at all, and no other state moves |
| ConfigServer.Server.SaveConfig | internal/api/devices_helpers.go:474-503 | refines the save step: write first, then memory, then the runtime |
| ConfigServer.Server.SaveDeviceEditPreservingText | internal/api/devices_helpers.go:408-445 | refines the text-preserving save: the spliced text is stored only if it lists the configuration's names, otherwise the whole configuration is written |
| ConfigServer.Server.ValidateDeviceAddition | internal/api/devices_helpers.go:35-63 | accepts exactly when the budget has room, there are no segments and the name is new |
| ConfigServer.Server.CreateDevice | internal/api/devices_helpers.go:136-187 | refines the create step of the machine whose runs keep the invariant |
| ConfigServer.Server.UpdateDevice | internal/api/devices.go:151-230 | refines the update step, by whole object or by text fragment |
| ConfigServer.Server.CloneDevice | internal/api/devices.go:379-453 | refines the clone step: rename in place, validate, save |
| ConfigServer.Server.RenameBlock | internal/api/devices_helpers.go:655-662 | the write through the block shows in memory, every session and the runtime, and nowhere else |
| ConfigServer.Server.DeleteDevice | internal/api/devices.go:254-293 | refines the delete step |
| ConfigServer.Server.DeleteDevices | internal/api/devices.go:299-376 | refines the batch step, saving once and only if something was deleted, and reports each name |
| ConfigServer.Server.AttachWalkToDevice | internal/api/handlers_synthesize_walk.go:320-341 | refines the attach step: no save when the walk is already attached, community filled in when empty |
| ConfigServer.Server.ReplaceWholeConfig | internal/api/handlers_read.go:186-306 | refines the replacement step: apply, write, and apply the previous configuration again after a failed write |
| ConfigServer.Server.ApplySimulationState | internal/api/simulation_state.go:51-62 | configuration, path and topology become the session's |
| ConfigServer.Server.SelectSimulation | internal/api/simulation_state.go:25-35 | refines the select step; reports whether the session exists |
| ConfigServer.Server.RemoveSimulation | internal/api/simulation_state.go:40-49 | refines the remove step |
| ConfigServer.Server.Serve | internal/api/devices.go:21-65 | the server object, over any sequence of requests, takes exactly the machine's run and keeps the invariant |
| Snapshot.DeepCopyConfig | internal/api/devices_helpers.go:72-133 | a fresh configuration with fresh records, each holding fresh copies of some fields and sharing the others |
| Snapshot.Fork | internal/api/devices_helpers.go:72-84 | the copy reads the same as the original, which is not touched |
| Snapshot.ApplyEdit | internal/api/devices_helpers.go:241-329 | the edited record reads as the edit says, and refers only to objects it had or new ones |
| Snapshot.EditReadsBack | internal/api/devices_helpers.go:241-329 | what an edit sets is read back and nothing else changes |
| Snapshot.Server.Update | internal/api/devices.go:151-230 | only the server's pointer is written: every object existing before reads the same, and the new configuration differs in the edited device alone |
| Snapshot.RemoveEach | internal/api/devices.go:328-357 | removing name after name leaves one filter of the copied records |
| Snapshot.KeptValuesConcat | internal/api/devices.go:235-251 | removal goes device by device and keeps the order |
| Snapshot.Server.Delete | internal/api/devices.go:254-376 | deleting any list of names writes only the server's pointer, and the new configuration is the old one without those names |
| Snapshot.CloneRecord | internal/api/devices_helpers.go:636-665 | the clone's fields, and exactly which records of the source configuration change with it |
| Snapshot.CloneReads | internal/api/devices_helpers.go:636-665 | a clone takes the new name in its name, and in its system and NetBIOS names if it had them, and keeps the rest |
| Snapshot.Server.Clone | internal/api/devices.go:379-453 | the new configuration is the old one, as the shared block now makes it read, followed by the clone |
| Snapshot.CloneKeepsReadingExactlyWhen | internal/api/devices_helpers.go:655-662 | the old configuration reads the same after a clone if and only if the source has no NetBIOS block, an unnamed one or one that already bears the new name |
| Snapshot.Serve | internal/api/devices_helpers.go:72-133 | a configuration handed out before any sequence of updates, walk attachments, deletions and batch deletions reads the same after it |
| Alerts.Monitor.Tick | internal/api/alerts.go:84-123 | one tick alerts exactly when the decision says so and carries the state into the next tick |
| Alerts.Monitor.Update | internal/api/alerts.go:256-264 | a new alert configuration arms the alert again and sends nothing |
| Alerts.Monitor.Serve | internal/api/alerts.go:43-72 | over any sequence of ticks and updates the alerts sent are those of the trace function AlertTimes; ticks with threshold zero do nothing |
| Alerts.AlertsWithinAllowance | internal/api/alerts.go:84-123 | from any carried state, alerts never exceed one per crossing plus what the cooldown allows |
| Alerts.AlertBound | internal/api/alerts.go:76-98 | over any run in time order there is at least one alert per crossing of the threshold, and at most floor(duration / 15 minutes) more |
| Alerts.OnlyAcrossAlerts | internal/api/alerts.go:113-122 | every alert is sent at a tick at or above a threshold that is set |
| Alerts.IdleSendsNothing | internal/api/alerts.go:113-116 | a run without such a tick sends nothing |
| Alerts.AlertExactlyWhen | internal/api/alerts.go:107-123 | a tick alerts if and only if it is at or above a set threshold and every alert since the last re-arming is at least 15 minutes old |
| Alerts.AlertTimesGrow | internal/api/alerts.go:84-98 | the alerts sent are those of the alerting ticks, in order |
| Alerts.RecordsLatestAlert | internal/api/alerts.go:84-98 | while an alert stands the server has its time and total on record; a new configuration forgets both |
| Alerts.StretchBound | internal/api/alerts.go:107-123 | a stretch at or above the threshold alerts on its first tick and at most 1 + floor(duration / cooldown) times |
| Alerts.StretchGaps | internal/api/alerts.go:107-123 | consecutive alerts of a stretch are at least one cooldown apart, the first also from the alert before it |
| Alerts.FreshAfterTick | internal/api/alerts.go:107-123 | after a tick at or above the threshold the last alert is less than one cooldown old |
| Alerts.FreshAfterRun | internal/api/alerts.go:84-123 | the same after any run in time order from the start |
| Attachment.ParseVlan | cmd/niac/cmd_daemon.go:345-355 | an accepted VLAN is within 1..4094 |
| Attachment.ParseTrunkVlans | cmd/niac/cmd_daemon.go:357-384 | the loop accepts exactly what the recursive ascending parse does, with the same VLANs; the empty text is refused |
| Attachment.ParseAttachmentPolicy | cmd/niac/cmd_daemon.go:310-343 | equals the specification parser that inverts the printer |
| Attachment.PolicyRoundTrip | cmd/niac/cmd_daemon.go:308-384 | parsing the documented spelling of any valid policy gives that policy |
| Attachment.AcceptedIsValid | cmd/niac/cmd_daemon.go:308-384 | every accepted policy has a non-empty trimmed interface without an equals sign, VLANs in range, and a non-empty strictly ascending trunk list |
| Attachment.PolicyExactly | cmd/niac/cmd_daemon.go:308-384 | a text is accepted as a policy if and only if it is a trimmed interface, an equals sign and direct, access: with digits of the VLAN, or trunk: with such digits joined by commas in ascending order |
| Attachment.OnlineCheck | cmd/niac/cmd_daemon.go:286-302 | the check against the modes held so far accepts a policy if and only if it is compatible with each policy held |
| Attachment.ParsePolicies | cmd/niac/cmd_daemon.go:251-282 | a list is accepted if and only if every item parses and every two differ in interface, or in mode with neither direct; the result is the parsed items in order |
| Attachment.AdmissionIsOrderFree | cmd/niac/cmd_daemon.go:251-306 | lists with the same items in any order are accepted or refused alike |
| Attachment.AtMostTwoPerInterface | cmd/niac/cmd_daemon.go:286-306 | no accepted list has three policies on one interface |
| ReverseDeps.BuildImporters | scripts/validate-touched.py:222-225 | the table is the reversed import relation within the module |
| ReverseDeps.Expand | scripts/validate-touched.py:229-232 | one worklist round keeps every package found justified and every processed package's importers found |
| ReverseDeps.ReverseDependencies | scripts/validate-touched.py:219-234 | ends on every import graph and returns exactly the packages with an import chain to a changed one, plus those whose tests import one of these |
| ReverseDeps.AffectedExactly | scripts/validate-touched.py:219-234 | a package is affected if and only if it is in the module and a line of imports leads from it, or from a package its tests import, to a changed one |
| ReverseDeps.AffectedUnion | scripts/validate-touched.py:219-234 | the result distributes over union of the changed sets |
| ReverseDeps.AffectedIsMonotone | scripts/validate-touched.py:219-234 | more changed packages never affect fewer |
| ReverseDeps.ReachingIsIdempotent | scripts/validate-touched.py:226-232 | following imports from the reaching set finds nothing new, and the changed packages are in it |
| WalkRebase.WalkedIsSettled | internal/api/draft_walk_rebase.go:74-127 | a reference rewritten without a clash is captured or in the library, and such a reference is left as it is |
| WalkRebase.WalkedExactly | internal/api/draft_walk_rebase.go:74-127 | when a reference is captured, when it is incompatible, and what it becomes otherwise, each exactly, by its text and its paths relative to the previous include path and the library; it then names the same file |
| WalkRebase.RebaseState.NormalizeScalar | internal/api/draft_walk_rebase.go:74-108 | rewrites one reference and raises exactly the flags it calls for |
| WalkRebase.RebaseState.Normalize | internal/api/draft_walk_rebase.go:51-58 | rewrites every reference of the tree once and nothing else; the flags say whether any was captured or clashed |
| WalkRebase.RebaseState.NormalizeEntries | internal/api/draft_walk_rebase.go:60-72 | the same over the keys and values of a mapping |
| WalkRebase.RewriteWalks | internal/api/draft_walk_rebase.go:51-72 | the references of the rewritten tree are the old ones, each rewritten, in the same order |
| WalkRebase.RewriteKeepsTheRest | internal/api/draft_walk_rebase.go:51-72 | with the references blanked out, the tree is the same before and after |
| WalkRebase.AssignLookup | internal/api/draft_walk_rebase.go:129-151 | after setting a key its value is found there, and setting it again changes nothing |
| WalkRebase.AssignTouchesOneValue | internal/api/draft_walk_rebase.go:138-151 | setting a key changes at most the first value under that key |
| WalkRebase.RebaseDraft | internal/api/draft_walk_rebase.go:14-40 | unchanged without a captured reference, rejected with a clashing one, otherwise rewritten with its include path set |
| WalkRebase.RebasedIsSettled | internal/api/draft_walk_rebase.go:14-40 | every reference of a rebased draft is captured or in the library, and its include path is the library's |
| WalkRebase.RebasedNamesSameFiles | internal/api/draft_walk_rebase.go:14-40 | the references of a moved draft correspond one by one, in order, to those of the input and name the same files; lost are exactly those below the replaced include path |
| WalkPlaces.RebaseExactly | internal/api/draft_walk_rebase.go:33-38 | a draft moves if and only if some reference place is captured and none incompatible, and is rejected if and only if there are both |
| WalkPlaces.RewriteAt | internal/api/draft_walk_rebase.go:51-72 | at every place of the tree: a scalar changes if and only if it is the value of walk_file or an item of a list under walk_files, and every other node stays |
| WalkPlaces.WalksExactly | internal/api/draft_walk_rebase.go:60-72 | a text is among the references if and only if it stands at such a place |
| WalkPlaces.LookupExactly | internal/api/draft_walk_rebase.go:129-136 | the previous include path is the first scalar under that key of the root |
| WalkPlaces.LookupMissing | internal/api/draft_walk_rebase.go:129-136 | and empty if there is none |
| WalkRebase.RebaseIsIdempotent | internal/api/draft_walk_rebase.go:14-40 | rebasing a rebased draft changes nothing and never fails |
| WalkRebase.RebaseKeepsTheRest | internal/api/draft_walk_rebase.go:14-40 | apart from references and the include path the draft is what it was |
| Routes.PatternSpelled | scripts/check-route-consumers.py:143-146 | a text written from segments means those segments, no more and no fewer, and is a prefix if and only if it ends in a slash |
| Routes.EmptyPartChangesNothing | scripts/check-route-consumers.py:145-146 | doubled slashes and a missing first slash change nothing |
| Routes.MatchingIsIntersection | scripts/check-route-consumers.py:142-154 | texts written from segments match if and only if some concrete path follows the segments of both, as long as an exact pattern, at least as long as a prefix, and equal to each segment that is no wildcard |
| Routes.BaseOfSpelled | scripts/check-route-consumers.py:134-139 | is_base_of for such texts, by their segments |
| Routes.BaseIsStrictPrefix | scripts/check-route-consumers.py:134-139 | is_base_of says whether an exact consumer accepts a strict prefix of some path of the route, if and only if it is not a slash route whose segments an exact consumer already covers |
| Routes.StopsShortWhen | scripts/check-route-consumers.py:134-139 | an exact consumer stops short of a path of the route if and only if their segments agree and the route is longer or ends in a slash |
| Routes.BaseStopsShort | scripts/check-route-consumers.py:134-139 | whatever is_base_of accepts does stop short |
| Routes.SlashRouteMissesBase | scripts/check-route-consumers.py:134-139 | /a stops short of a path of /a/ and is not called its base |
| Routes.LongerLanguageMatchesMore | scripts/check-route-consumers.py:142-154 | widening a route to a prefix keeps its matches, and matching is symmetric |
| GeneratedRegion.Index | cmd/niac/docs.go:195-196 | the first occurrence, or -1 exactly when there is none |
| GeneratedRegion.MarkersDoNotOverlap | cmd/niac/docs.go:17-18 | an end marker found from a begin marker on starts after that marker ends |
| GeneratedRegion.SurroundingsAreKept | cmd/niac/docs.go:193-200 | text before the first begin marker and from the first end marker on is kept exactly |
| GeneratedRegion.BodyIsBetween | cmd/niac/docs.go:193-200 | between the first markers of the result stands the body with an empty line on either side |
| GeneratedRegion.RefusedExactlyWhen | cmd/niac/docs.go:196-198 | a document is refused if and only if a marker is missing or an end marker comes before every begin marker |
| GeneratedRegion.LastReplacementWins | cmd/niac/docs.go:193-200 | replacing twice equals replacing once with the second body, if and only if the first body does not contain the end marker |
| GeneratedRegion.StaysReplaceable | cmd/niac/docs.go:193-200 | after a replacement another one succeeds, whatever the bodies |
| GeneratedRegion.ReplaceIsIdempotent | cmd/niac/docs.go:193-200 | replacing with the same body again changes nothing |
| MergeByName.BuildDeviceMap | cmd/niac/config.go:187-193 | each name maps to the last device that bears it, and no other name is there |
| MergeByName.PlaceOverBase | internal/api/config_ops.go:114-121 | the loop over the base and what it leaves of the overlay |
| MergeByName.MergeConfigs | internal/api/config_ops.go:106-126 | the result is a merge: the base in place, replaced where named, then each overlay-only device once |
| MergeByName.LookupIsOverlayThenBase | internal/api/config_ops.go:106-126 | for any base a name is found in the overlay if it is there, else in the base |
| MergeByName.MergeShape | internal/api/config_ops.go:106-126 | for any base, each position holds the overlay's device where its name first comes up and its own otherwise, and the size is the base plus the overlay-only names |
| MergeByName.DistinctExactlyWhenBaseIs | internal/api/config_ops.go:106-126 | the result has distinct names if and only if the base has |
| MergeByName.MergeAgain | internal/api/config_ops.go:106-126 | for any base, merging the same overlay again changes nothing |
| MergeByName.LastInMerge | internal/api/config_ops.go:106-126 | the last device of a name in a merge is the overlay's, unless the base repeats the name |
| MergeByName.MergeIsAssociative | internal/api/config_ops.go:106-126 | merging three configurations either way finds the same device under a name, if and only if not: the third has it, the middle one repeats it and the last of those differs from the third's |
| MergeByName.RepeatedNameBreaksAssociativity | internal/api/config_ops.go:106-126 | three configurations at which the two ways differ |
| MergeByName.MergesAgree | cmd/niac/config.go:278-294 | for any base, any two merges of the same inputs, by the API or the command line, agree up to the order of the overlay-only tail |
| WalkBundle.BestIsFirstSmallest | scripts/gen-content-bundle.py:72-77 | the dictionary holds, for each key that occurs, the first of its smallest files |
| WalkBundle.LessIsLexicographic | scripts/gen-content-bundle.py:78 | the order of the listing is the dictionary order of strings |
| WalkBundle.SortValues | scripts/gen-content-bundle.py:78 | lists each value once, strictly ordered by vendor and device |
| WalkBundle.DedupeByDevice | scripts/gen-content-bundle.py:70-78 | one file per device, the first smallest, strictly sorted |
| WalkBundle.SmallestPerVendor | scripts/gen-content-bundle.py:81-88 | one file per vendor, the first smallest, strictly sorted |
| WalkBundle.FullBundle | scripts/gen-content-bundle.py:151-152 | every file of the corpus has in the full bundle a file of its own device that is no larger |
| WalkBundle.EssentialsAreVendorMinima | scripts/gen-content-bundle.py:151-152 | the essentials are part of the full bundle, hold one file for each vendor of the corpus, and that file is the smallest of all the vendor's files |

## Left out

- HTTP: status codes, JSON, CSRF, authentication, rate limits, logging, server-sent events. Each handler is one step under the mutation lock; the path and the body checks before it are the step's validity input.
- Capture reading, VLAN tags, the role map file, the capture window and the TSV writer of the demand script.
- YAML text, the fragment splice and topology building: functions of `ConfigState.World`.
- Publishing, updating and clearing simulation sessions, and the replay and interface fields of a session: they would add easy steps.
- Field-by-field protocol copying of device updates: `Snapshot.Edit` has one edit of each kind (value, replaced slice, replaced block, dropped block).
- Sending the alert webhook; the wrap-around of the 64-bit packet total.
- Titles, descriptions, bounds and options of form fields, and the rendering of the manifest as TypeScript.
- The final sort of the gate's leaves: the theorems are about which leaves are listed.
- Finding the package that owns a changed file; the loaders of routes and consumers.
- Error messages: each error is the fact of a refusal.
- Snmp.RequestRoundTrip: not stated for messages of 2^1016 octets or more, for which the encoder itself has no length octet.
- Ber.ReadEncoded: not stated for payloads of 2^1016 octets or more, for the same reason.
- Ber.EncodeOid: takes the arcs as numbers and demands what the encoder needs, at least two arcs and a first octet of at most 255; Python's `int` spellings other than decimal digits are not modelled.
- Snapshot.DeepCopyConfig: the address slice stands for every slice and map the source duplicates, the LLDP and NetBIOS blocks for every block it shares.
- WalkRebase.RebaseState.Normalize: returns the rewritten tree instead of writing through YAML nodes, so anchors shared by aliases, tags and comments are not captured.
- WalkRebase.RebaseIsIdempotent: for a root whose keys and values come in pairs, as a YAML parser delivers it.
- MergeByName.MergeConfigs: the order of the overlay-only tail is a map iteration's and is not stated.
- ReverseDeps.ReverseDependencies: the changed packages are packages of the module, as its caller provides them; any other raises a key error.
- Parity.AgreeingFieldPaths: on acyclic schemas, as all comparisons of the two walks are; on a cyclic one the gate lists the path at which it stops and the generator has no field there (EditorCycles.CutPropertyIsOnlyListed).
- EditorCycles.DescribeEndsExactlyWhen: where every reference resolves; a missing definition may raise before an endless branch is reached.
- ConfigState.CloneStep: the clone's address, MAC and system name are the request's `rest`; their derivation from the source is in Snapshot.
- Snapshot.ApplyEdit: one edit of each kind stands for the fields of that kind.
