/** The device half of the parity gate: every `devices[].` leaf it lists has one
    owner, a hand-built control or the generated manifest. */
module DeviceParity {
  import opened Text
  import opened Schema
  import opened LeafWalk
  import opened EditorForm
  import opened Parity

  /** `leaf` is one of the paths this field sets below `devices[]`. */
  predicate SetBy(field: Field, leaf: Path) {
    leaf in FieldPaths(field, DEVICE_PREFIX + [Key(field.name)])
  }

  lemma {:induction false} SectionsMember(fields: seq<Field>, section: Section)
    ensures section in FieldSections(fields) <==>
            exists i :: 0 <= i < |fields| && SectionKind(fields[i].kind)
                     && section == Section(fields[i].name, fields[i].kind, fields[i].fields)
  {
    if fields != [] {
      SectionsMember(fields[..|fields| - 1], section);
    }
  }

  lemma {:induction false} ScalarsMember(fields: seq<Field>, field: Field)
    ensures field in ScalarFields(fields) <==> field in fields && !SectionKind(field.kind)
  {
    if fields != [] {
      var front, last := fields[..|fields| - 1], fields[|fields| - 1];
      ScalarsMember(front, field);
      assert field in fields <==> field in front || field == last;
    }
  }

  lemma {:induction false} BindingMember(sections: seq<Section>, leaf: Path)
    ensures leaf in BindingPaths(sections) <==> exists s :: s in sections && leaf in SectionPaths(s)
  {
    hide SectionPaths;
    if sections != [] {
      BindingMember(sections[1..], leaf);
      assert forall s :: s in sections <==> s == sections[0] || s in sections[1..];
    }
  }

  /** The key of the leading section does not name a section of its own. */
  predicate DeviceKeyFree(fields: seq<Field>) {
    forall i :: 0 <= i < |fields| && fields[i].name == "device" ==> !SectionKind(fields[i].kind)
  }

  /** The manifest sets exactly the paths of its fields, however they are arranged. */
  lemma ArrangedPaths(fields: seq<Field>, leaf: Path)
    requires DeviceKeyFree(fields)
    ensures leaf in BindingPaths(Arrange(fields)) <==> exists i :: 0 <= i < |fields| && SetBy(fields[i], leaf)
  {
    hide FieldPaths, FieldListPaths, ScalarFields, FieldSections;
    var scalars := ScalarFields(fields);
    var leading := Section("device", Object, scalars);
    BindingMember(Arrange(fields), leaf);
    FieldListMember(scalars, DEVICE_PREFIX, leaf);
    if leaf in BindingPaths(Arrange(fields)) {
      var s :| s in Arrange(fields) && leaf in SectionPaths(s);
      if s in FieldSections(fields) {
        SectionsMember(fields, s);
      } else {
        assert s == leading;
        var i :| 0 <= i < |scalars| && leaf in FieldPaths(scalars[i], DEVICE_PREFIX + [Key(scalars[i].name)]);
        ScalarsMember(fields, scalars[i]);
      }
    }
    if i :| 0 <= i < |fields| && SetBy(fields[i], leaf) {
      var f := fields[i];
      if SectionKind(f.kind) {
        var s := Section(f.name, f.kind, f.fields);
        SectionsMember(fields, s);
        assert s in Arrange(fields) && leaf in SectionPaths(s);
      } else {
        ScalarsMember(fields, f);
        assert leading in Arrange(fields);
        var j :| 0 <= j < |scalars| && scalars[j] == f;
        assert leaf in FieldPaths(scalars[j], DEVICE_PREFIX + [Key(scalars[j].name)]);
        assert leaf in SectionPaths(leading);
      }
    }
  }

  lemma {:induction false} GeneratedMember(props: seq<Property>, defs: Defs, rank: map<string, nat>, field: Field)
    requires Acyclic(defs, rank) && forall i :: 0 <= i < |props| ==> Ranked(props[i].node, defs)
    ensures field in Generated(props, defs, rank) <==>
            exists i :: 0 <= i < |props| && !HandBound(props[i].name)
                     && Describe(props[i].name, props[i].node, [], defs, rank) == Some(field)
  {
    hide Describe, HandBound;
    if props != [] {
      GeneratedMember(props[..|props| - 1], defs, rank, field);
    }
  }

  /** The paths of the manifest, property by property. */
  lemma ManifestPaths(props: seq<Property>, defs: Defs, rank: map<string, nat>, leaf: Path)
    requires Acyclic(defs, rank) && forall i :: 0 <= i < |props| ==> Ranked(props[i].node, defs)
    requires DeviceKeyFree(Generated(props, defs, rank))
    ensures leaf in BindingPaths(Arrange(Generated(props, defs, rank))) <==>
            exists i :: 0 <= i < |props| && !HandBound(props[i].name) &&
              leaf in OptionalPaths(Describe(props[i].name, props[i].node, [], defs, rank), DEVICE_PREFIX + [Key(props[i].name)])
  {
    hide Describe, HandBound, Arrange, BindingPaths, Generated, FieldPaths;
    var fields := Generated(props, defs, rank);
    ArrangedPaths(fields, leaf);
    if j :| 0 <= j < |fields| && SetBy(fields[j], leaf) {
      GeneratedMember(props, defs, rank, fields[j]);
      var i :| 0 <= i < |props| && !HandBound(props[i].name)
            && Describe(props[i].name, props[i].node, [], defs, rank) == Some(fields[j]);
      DescribedName(props[i].name, props[i].node, [], defs, rank);
    }
    if i :| 0 <= i < |props| && !HandBound(props[i].name) &&
            leaf in OptionalPaths(Describe(props[i].name, props[i].node, [], defs, rank), DEVICE_PREFIX + [Key(props[i].name)]) {
      var field := Describe(props[i].name, props[i].node, [], defs, rank).value;
      GeneratedMember(props, defs, rank, field);
      DescribedName(props[i].name, props[i].node, [], defs, rank);
      var j :| 0 <= j < |fields| && fields[j] == field;
      assert SetBy(fields[j], leaf);
    }
  }

  /** A property that a hand-built control owns has the shape that control edits:
      `ips` a list of scalars, the others one value. */
  predicate HandShape(name: string, node: Node, defs: Defs, rank: map<string, nat>)
    requires Acyclic(defs, rank) && Ranked(node, defs)
  {
    var target := Deref(node, defs, rank);
    target.props == [] &&
    if name == "ips" then
      target.kind == "array" && target.items.Some? && Deref(target.items.value, defs, rank).props == []
    else !(target.kind == "array" && target.items.Some?)
  }

  /** What the two scripts assume of the `Device` definition. */
  ghost predicate DeviceShape(device: Node, defs: Defs, rank: map<string, nat>)
    requires Acyclic(defs, rank) && Ranked(device, defs)
  {
    && DistinctNames(device.props)
    && DeviceKeyFree(Generated(device.props, defs, rank))
    && (forall i :: 0 <= i < |device.props| && HandBound(device.props[i].name) ==>
          HandShape(device.props[i].name, device.props[i].node, defs, rank))
    && (forall i :: 0 <= i < |device.props| && !HandBound(device.props[i].name) ==>
          Agrees(device.props[i].node, defs, rank))
  }

  predicate HandOwned(leaf: Path) {
    exists name | name in {"name", "type", "mac", "vendor", "mac_suffix", "ips"} :: leaf == HandBoundPath(name)
  }

  ghost predicate ManifestOwned(leaf: Path, device: Node, defs: Defs, rank: map<string, nat>)
    requires Acyclic(defs, rank) && Ranked(device, defs)
  {
    leaf in BindingPaths(Arrange(Generated(device.props, defs, rank)))
  }

  /** A spelled leaf of a device has exactly one owner. */
  lemma DeviceLeafHasOneOwner(device: Node, defs: Defs, rank: map<string, nat>, leaf: Path)
    requires Acyclic(defs, rank) && Ranked(device, defs) && DeviceShape(device, defs, rank)
    requires leaf in SpellProps(device.props, DEVICE_PREFIX, defs, rank)
    ensures HandOwned(leaf) <==> !ManifestOwned(leaf, device, defs, rank)
  {
    hide Spell, SpellProps, Describe, Arrange, BindingPaths, Generated, FieldPaths, Agrees;
    SpellPropsMember(device.props, DEVICE_PREFIX, defs, rank, leaf);
    var k :| 0 <= k < |device.props| &&
             leaf in Spell(device.props[k].node, DEVICE_PREFIX + [Key(device.props[k].name)], defs, rank);
    var p := device.props[k];
    var below := DEVICE_PREFIX + [Key(p.name)];
    SpellUnder(p.node, below, defs, rank, leaf);
    assert leaf[2] == below[2] == Key(p.name);
    ManifestPaths(device.props, defs, rank, leaf);
    if HandBound(p.name) {
      HandLeaf(p.name, p.node, defs, rank, leaf);
      NotGeneratedTwice(device, k, defs, rank, leaf);
    } else {
      AgreeingFieldPaths(p.name, p.node, [], below, defs, rank);
      assert leaf in OptionalPaths(Describe(p.name, p.node, [], defs, rank), below);
      assert forall name :: HandBound(name) ==> HandBoundPath(name)[2] == Key(name);
    }
  }

  lemma HandLeaf(name: string, node: Node, defs: Defs, rank: map<string, nat>, leaf: Path)
    requires Acyclic(defs, rank) && Ranked(node, defs) && HandShape(name, node, defs, rank)
    requires leaf in Spell(node, DEVICE_PREFIX + [Key(name)], defs, rank)
    ensures leaf == HandBoundPath(name)
  {
    hide SpellProps;
  }

  /** No generated field writes below a hand-bound property. */
  lemma NotGeneratedTwice(device: Node, k: nat, defs: Defs, rank: map<string, nat>, leaf: Path)
    requires Acyclic(defs, rank) && Ranked(device, defs) && DistinctNames(device.props)
    requires DeviceKeyFree(Generated(device.props, defs, rank))
    requires k < |device.props| && HandBound(device.props[k].name)
    requires DEVICE_PREFIX + [Key(device.props[k].name)] <= leaf
    ensures !ManifestOwned(leaf, device, defs, rank)
  {
    hide Describe, Arrange, BindingPaths, Generated, FieldPaths, HandBound;
    ManifestPaths(device.props, defs, rank, leaf);
    assert leaf[2] == (DEVICE_PREFIX + [Key(device.props[k].name)])[2];
    forall i | 0 <= i < |device.props| {
      PathNamesProperty(Describe(device.props[i].name, device.props[i].node, [], defs, rank), device.props[i].name, leaf);
    }
  }

  lemma PathNamesProperty(field: Option<Field>, name: string, leaf: Path)
    ensures leaf in OptionalPaths(field, DEVICE_PREFIX + [Key(name)]) ==> |leaf| > 2 && leaf[2] == Key(name)
  {
    var below := DEVICE_PREFIX + [Key(name)];
    if leaf in OptionalPaths(field, below) {
      FieldPathsUnder(field.value, below, leaf);
      assert leaf[2] == below[2];
    }
  }

  /** The root lists devices as an array of the `Device` definition. */
  predicate DevicesAt(root: Node, k: nat, device: Node, defs: Defs, rank: map<string, nat>)
    requires Acyclic(defs, rank) && Ranked(root, defs)
  {
    && k < |root.props| && root.props[k].name == "devices" && device.props != []
    && var list := Deref(root.props[k].node, defs, rank);
    && list.props == [] && list.kind == "array" && list.items.Some?
    && Deref(list.items.value, defs, rank) == device
  }

  lemma RootDeviceLeaves(root: Node, k: nat, device: Node, defs: Defs, rank: map<string, nat>, leaf: Path)
    requires Acyclic(defs, rank) && Ranked(root, defs) && root.ref.None? && DistinctNames(root.props)
    requires Ranked(device, defs) && DevicesAt(root, k, device, defs, rank)
    requires leaf in Spell(root, [], defs, rank) && DEVICE_PREFIX <= leaf
    ensures leaf in SpellProps(device.props, DEVICE_PREFIX, defs, rank)
  {
    hide Spell, SpellProps, Acyclic, Height;
    RootSpell(root, k, device, defs, rank);
    SpellPropsMember(root.props, [], defs, rank, leaf);
    var i :| 0 <= i < |root.props| && leaf in Spell(root.props[i].node, [] + [Key(root.props[i].name)], defs, rank);
    SpellUnder(root.props[i].node, [] + [Key(root.props[i].name)], defs, rank, leaf);
    assert leaf[0] == Key(root.props[i].name) && leaf[0] == DEVICE_PREFIX[0];
    assert i == k;
  }

  lemma RootSpell(root: Node, k: nat, device: Node, defs: Defs, rank: map<string, nat>)
    requires Acyclic(defs, rank) && Ranked(root, defs) && root.ref.None?
    requires Ranked(device, defs) && DevicesAt(root, k, device, defs, rank)
    ensures Spell(root, [], defs, rank) == SpellProps(root.props, [], defs, rank)
    ensures Spell(root.props[k].node, [] + [Key("devices")], defs, rank) == SpellProps(device.props, DEVICE_PREFIX, defs, rank)
  {
    hide SpellProps, Acyclic, Height;
    assert [] + [Key("devices")] + [Elem] == DEVICE_PREFIX;
  }

  /** Parity: each `devices[].` leaf the gate lists is hand-bound or set by the
      generated manifest, and never both. */
  lemma GateLeafHasOneOwner(schema: Node, k: nat, device: Node, defs: Defs, rank: map<string, nat>, leaf: Path)
    requires Acyclic(defs, rank) && Ranked(schema, defs)
    requires DistinctNames(Deref(schema, defs, rank).props)
    requires Ranked(device, defs) && DeviceShape(device, defs, rank)
    requires DevicesAt(Deref(schema, defs, rank), k, device, defs, rank)
    ensures SchemaLeaves(schema, defs).Ended?
    ensures leaf in SchemaLeaves(schema, defs).value && DEVICE_PREFIX <= leaf ==>
              (HandOwned(leaf) <==> !ManifestOwned(leaf, device, defs, rank))
  {
    hide Spell, SpellProps, SchemaLeaves, DeviceShape, HandOwned, ManifestOwned;
    GateListsSpelled(schema, defs, rank);
    if leaf in SchemaLeaves(schema, defs).value && DEVICE_PREFIX <= leaf {
      var root := Deref(schema, defs, rank);
      SpellOfTarget(schema, defs, rank);
      RootDeviceLeaves(root, k, device, defs, rank, leaf);
      DeviceLeafHasOneOwner(device, defs, rank, leaf);
    }
  }

  lemma SpellOfTarget(schema: Node, defs: Defs, rank: map<string, nat>)
    requires Acyclic(defs, rank) && Ranked(schema, defs)
    ensures Spell(Deref(schema, defs, rank), [], defs, rank) == Spell(schema, [], defs, rank)
  {
  }

  /** The manifest can set every leaf of every generated property exactly when
      the two scripts read each of those properties alike. */
  lemma ManifestCoversExactlyWhenAgreeing(device: Node, defs: Defs, rank: map<string, nat>)
    requires Acyclic(defs, rank) && Ranked(device, defs) && DictDefs(defs) && DictNode(device)
    requires DeviceKeyFree(Generated(device.props, defs, rank))
    ensures (forall i, leaf ::
               0 <= i < |device.props| && !HandBound(device.props[i].name) &&
               leaf in Spell(device.props[i].node, DEVICE_PREFIX + [Key(device.props[i].name)], defs, rank) ==>
                 ManifestOwned(leaf, device, defs, rank))
            <==>
            (forall i :: 0 <= i < |device.props| && !HandBound(device.props[i].name) ==>
               Agrees(device.props[i].node, defs, rank))
  {
    hide Spell, Describe, Agrees, FieldPaths, HandBound, Generated, Covered, ManifestOwned;
    forall i | 0 <= i < |device.props| && !HandBound(device.props[i].name)
      ensures (forall leaf :: leaf in Spell(device.props[i].node, DEVICE_PREFIX + [Key(device.props[i].name)], defs, rank) ==>
                 ManifestOwned(leaf, device, defs, rank))
              <==> Agrees(device.props[i].node, defs, rank)
    {
      PropertyCovered(device, i, defs, rank);
      var p := device.props[i];
      CoveredExactlyWhenAgreeing(p.name, p.node, DEVICE_PREFIX + [Key(p.name)], defs, rank);
    }
  }

  lemma PropertyCovered(device: Node, k: nat, defs: Defs, rank: map<string, nat>)
    requires Acyclic(defs, rank) && Ranked(device, defs) && DistinctNames(device.props)
    requires DeviceKeyFree(Generated(device.props, defs, rank))
    requires k < |device.props| && !HandBound(device.props[k].name)
    ensures var p := device.props[k];
            var below := DEVICE_PREFIX + [Key(p.name)];
            Covered(p.name, p.node, [], below, defs, rank) <==>
            forall leaf :: leaf in Spell(p.node, below, defs, rank) ==> ManifestOwned(leaf, device, defs, rank)
  {
    hide Spell, Describe, FieldPaths, Generated, HandBound, Arrange, BindingPaths;
    var p := device.props[k];
    var below := DEVICE_PREFIX + [Key(p.name)];
    forall leaf | leaf in Spell(p.node, below, defs, rank)
      ensures ManifestOwned(leaf, device, defs, rank) <==>
              leaf in OptionalPaths(Describe(p.name, p.node, [], defs, rank), below)
    {
      ManifestPaths(device.props, defs, rank, leaf);
      SpellUnder(p.node, below, defs, rank, leaf);
      assert leaf[2] == below[2];
      forall i | 0 <= i < |device.props| {
        PathNamesProperty(Describe(device.props[i].name, device.props[i].node, [], defs, rank), device.props[i].name, leaf);
      }
    }
  }

  /** The hand-bound paths as the parity gate prints them. */
  lemma HandPathsPrinted()
    ensures Render(HandBoundPath("name")) == "devices[].name"
    ensures Render(HandBoundPath("mac_suffix")) == "devices[].mac_suffix"
    ensures Render(HandBoundPath("ips")) == "devices[].ips[]"
  {
    DevicePathPrinted("name");
    DevicePathPrinted("mac_suffix");
    DevicePathPrinted("ips");
    var ips := DEVICE_PREFIX + [Key("ips"), Elem];
    assert ips[..3] == DEVICE_PREFIX + [Key("ips")];
    assert Render(ips) == Render(ips[..3]) + "[]";
  }

  lemma DevicePathPrinted(name: string)
    ensures Render(DEVICE_PREFIX + [Key(name)]) == "devices[]." + name
  {
    var path := DEVICE_PREFIX + [Key(name)];
    assert path[..2] == DEVICE_PREFIX && DEVICE_PREFIX[..1] == [Key("devices")] && [Key("devices")][..0] == [];
    assert Render([Key("devices")]) == "devices";
    assert Render(DEVICE_PREFIX) == "devices[]";
  }
}
