/** Do the parity gate and the form generator agree on the fields of a device?
    Two independent recursions over one schema, compared through the plain list
    of leaf paths the schema spells. */
module Parity {
  import opened Text
  import Sets
  import opened Schema
  import opened LeafWalk
  import opened EditorForm

  // ---------------------------------------------------------------------------
  // The leaves an acyclic schema spells

  ghost function Spell(node: Node, path: Path, defs: Defs, rank: map<string, nat>): (leaves: seq<Path>)
    requires Acyclic(defs, rank) && Ranked(node, defs)
    ensures leaves != []
    decreases Height(node, rank), node, 1
  {
    var target := Deref(node, defs, rank);
    if target.props != [] then SpellProps(target.props, path, defs, rank)
    else if target.kind == "array" && target.items.Some? then
      var item := Deref(target.items.value, defs, rank);
      if item.props != [] then SpellProps(item.props, path + [Elem], defs, rank) else [path + [Elem]]
    else [path]
  }

  ghost function SpellProps(props: seq<Property>, base: Path, defs: Defs, rank: map<string, nat>): (leaves: seq<Path>)
    requires Acyclic(defs, rank) && forall i :: 0 <= i < |props| ==> Ranked(props[i].node, defs)
    ensures props != [] ==> leaves != []
    decreases HeightOfProps(props, rank), props, 0
  {
    if props == [] then []
    else Spell(props[0].node, base + [Key(props[0].name)], defs, rank) + SpellProps(props[1..], base, defs, rank)
  }

  /** Every spelled leaf of a property list lies under one of its properties. */
  lemma {:induction false} SpellPropsMember(props: seq<Property>, base: Path, defs: Defs, rank: map<string, nat>, leaf: Path)
    requires Acyclic(defs, rank) && forall i :: 0 <= i < |props| ==> Ranked(props[i].node, defs)
    ensures leaf in SpellProps(props, base, defs, rank) <==>
            exists i :: 0 <= i < |props| && leaf in Spell(props[i].node, base + [Key(props[i].name)], defs, rank)
    decreases |props|
  {
    hide Spell;
    if props != [] {
      SpellPropsMember(props[1..], base, defs, rank, leaf);
      var p := props[0];
      if leaf in SpellProps(props[1..], base, defs, rank) {
        var j :| 0 <= j < |props[1..]| && leaf in Spell(props[1..][j].node, base + [Key(props[1..][j].name)], defs, rank);
        assert props[j + 1] == props[1..][j];
      }
      if i :| 0 <= i < |props| && leaf in Spell(props[i].node, base + [Key(props[i].name)], defs, rank) {
        assert i > 0 ==> props[1..][i - 1] == props[i];
      }
    }
  }

  lemma {:induction false} SpellUnder(node: Node, path: Path, defs: Defs, rank: map<string, nat>, leaf: Path)
    requires Acyclic(defs, rank) && Ranked(node, defs) && leaf in Spell(node, path, defs, rank)
    ensures path <= leaf
    decreases Height(node, rank), node, 1
  {
    var target := Deref(node, defs, rank);
    if target.props != [] {
      SpellPropsUnder(target, path, defs, rank, leaf);
    } else if target.kind == "array" && target.items.Some? {
      var item := Deref(target.items.value, defs, rank);
      if item.props != [] {
        SpellPropsUnder(item, path + [Elem], defs, rank, leaf);
      }
    }
  }

  lemma {:induction false} SpellPropsUnder(node: Node, base: Path, defs: Defs, rank: map<string, nat>, leaf: Path)
    requires Acyclic(defs, rank) && Ranked(node, defs) && leaf in SpellProps(node.props, base, defs, rank)
    ensures base <= leaf && |leaf| > |base|
    decreases Height(node, rank), node, 0
  {
    SpellPropsMember(node.props, base, defs, rank, leaf);
    var i :| 0 <= i < |node.props| && leaf in Spell(node.props[i].node, base + [Key(node.props[i].name)], defs, rank);
    SpellUnder(node.props[i].node, base + [Key(node.props[i].name)], defs, rank, leaf);
  }

  // ---------------------------------------------------------------------------
  // The gate lists only spelled leaves

  /** No definition on the stack can be reached from this node. */
  predicate StackAbove(stack: seq<string>, height: nat, rank: map<string, nat>) {
    forall i :: 0 <= i < |stack| ==> stack[i] in rank && height <= rank[stack[i]]
  }

  /** The walk appended only leaves that `Spell` lists. */
  ghost predicate Adds(before: Found, after: Found, spelled: seq<Path>) {
    before.leaves <= after.leaves &&
    forall i :: |before.leaves| <= i < |after.leaves| ==> after.leaves[i] in spelled
  }

  lemma {:induction false} WalkAddsSpelled(
    node: Node, path: Path, stack: seq<string>, found: Found, defs: Defs, rank: map<string, nat>)
    requires Acyclic(defs, rank) && Ranked(node, defs)
    requires StackAbove(stack, Height(node, rank), rank)
    ensures var after := Walk(node, path, stack, found, defs);
            after.Ended? && Adds(found, after.value, Spell(node, path, defs, rank))
    decreases |Fresh(defs, stack)|, node, 2
  {
    var target := Deref(node, defs, rank);
    match node.ref
    case None => ExpandAddsSpelled(node, path, stack, found, defs, rank);
    case Some(name) =>
      assert name !in stack;
      if !Repeated(found.first, name, path) {
        FreshShrinks(defs, stack, name);
        ExpandAddsSpelled(target, path, stack + [name], Record(found, name, path), defs, rank);
        assert Spell(target, path, defs, rank) == Spell(node, path, defs, rank);
      }
  }

  lemma {:induction false} ExpandAddsSpelled(
    node: Node, path: Path, stack: seq<string>, found: Found, defs: Defs, rank: map<string, nat>)
    requires Acyclic(defs, rank) && Ranked(node, defs) && node.ref.None?
    requires StackAbove(stack, Height(node, rank), rank)
    ensures var after := Expand(node, path, stack, found, defs);
            after.Ended? && Adds(found, after.value, Spell(node, path, defs, rank))
    decreases |Fresh(defs, stack)|, node, 1
  {
    if node.props != [] {
      PropsAddSpelled(node, 0, path, stack, found, defs, rank);
    } else if node.kind == "array" && node.items.Some? {
      var items := node.items.value;
      var item := Deref(items, defs, rank);
      if item.props != [] {
        WalkAddsSpelled(items, path + [Elem], stack, found, defs, rank);
      }
    }
  }

  lemma {:induction false} PropsAddSpelled(
    node: Node, from: nat, path: Path, stack: seq<string>, found: Found, defs: Defs, rank: map<string, nat>)
    requires Acyclic(defs, rank) && Ranked(node, defs) && node.ref.None?
    requires StackAbove(stack, Height(node, rank), rank) && from <= |node.props|
    ensures var after := WalkProps(node.props[from..], path, stack, found, defs);
            after.Ended? && Adds(found, after.value, SpellProps(node.props, path, defs, rank))
    decreases |Fresh(defs, stack)|, node, 0, |node.props| - from
  {
    if from < |node.props| {
      hide Walk, Spell, SpellProps, Acyclic, Height;
      var p := node.props[from];
      assert node.props[from..][0] == p && node.props[from..][1..] == node.props[from + 1..];
      var below := path + [Key(p.name)];
      WalkAddsSpelled(p.node, below, stack, found, defs, rank);
      var next := Walk(p.node, below, stack, found, defs).value;
      forall i | |found.leaves| <= i < |next.leaves|
        ensures next.leaves[i] in SpellProps(node.props, path, defs, rank)
      {
        SpellPropsMember(node.props, path, defs, rank, next.leaves[i]);
      }
      PropsAddSpelled(node, from + 1, path, stack, next, defs, rank);
      var after := WalkProps(node.props[from + 1..], path, stack, next, defs).value;
      assert forall i :: |found.leaves| <= i < |next.leaves| ==> after.leaves[i] == next.leaves[i];
    }
  }

  /** On an acyclic schema the gate ends, and lists only leaves the schema spells. */
  lemma GateListsSpelled(schema: Node, defs: Defs, rank: map<string, nat>)
    requires Acyclic(defs, rank) && Ranked(schema, defs)
    ensures var r := SchemaLeaves(schema, defs);
            r.Ended? && forall leaf :: leaf in r.value ==> leaf in Spell(schema, [], defs, rank)
  {
    var root := Deref(schema, defs, rank);
    ExpandAddsSpelled(root, [], [], Found([], map[]), defs, rank);
    var leaves := SchemaLeaves(schema, defs).value;
    forall leaf | leaf in leaves ensures leaf in Spell(schema, [], defs, rank) {
      var i :| 0 <= i < |leaves| && leaves[i] == leaf;
      assert leaf in Spell(root, [], defs, rank);
    }
  }

  // ---------------------------------------------------------------------------
  // When the generator can set every spelled leaf

  /** The shapes on which the two scripts read a node alike. */
  predicate AgreesHere(target: Node) {
    if target.hasEnum then target.props == [] && !(target.kind == "array" && target.items.Some?)
    else if target.kind == "array" then target.props == [] && target.items.Some?
    else target.props != [] || target.kind == "object" || ScalarKind(target.kind)
  }

  ghost predicate Agrees(node: Node, defs: Defs, rank: map<string, nat>)
    requires Acyclic(defs, rank) && Ranked(node, defs)
    decreases Height(node, rank), node
  {
    var target := Deref(node, defs, rank);
    AgreesHere(target) &&
    if target.hasEnum then true
    else if target.kind == "array" && target.items.Some? then
      var item := Deref(target.items.value, defs, rank);
      forall i :: 0 <= i < |item.props| ==> Agrees(item.props[i].node, defs, rank)
    else
      forall i :: 0 <= i < |target.props| ==> Agrees(target.props[i].node, defs, rank)
  }

  function OptionalPaths(field: Option<Field>, path: Path): seq<Path> {
    match field
    case None => []
    case Some(f) => FieldPaths(f, path)
  }

  /** On agreeing shapes the generator sets exactly the spelled leaves, in order. */
  lemma {:induction false} AgreeingFieldPaths(
    name: string, node: Node, stack: seq<string>, path: Path, defs: Defs, rank: map<string, nat>)
    requires Acyclic(defs, rank) && Ranked(node, defs) && Agrees(node, defs, rank)
    requires StackAbove(stack, Height(node, rank), rank)
    ensures Describe(name, node, stack, defs, rank).Some?
    ensures FieldPaths(Describe(name, node, stack, defs, rank).value, path) == Spell(node, path, defs, rank)
    decreases Height(node, rank), node, 1
  {
    hide ChildFields, SpellProps, FieldListPaths, Acyclic, Height, Deref;
    var target := Deref(node, defs, rank);
    var inner := Push(node, stack);
    if target.hasEnum {
    } else if target.kind == "array" {
      var item := Deref(target.items.value, defs, rank);
      if item.props != [] {
        AgreeingChildPaths(item, 0, inner, path + [Elem], defs, rank);
      }
    } else if target.props != [] {
      AgreeingChildPaths(target, 0, inner, path, defs, rank);
    }
  }

  lemma {:induction false} AgreeingChildPaths(
    node: Node, from: nat, stack: seq<string>, base: Path, defs: Defs, rank: map<string, nat>)
    requires Acyclic(defs, rank) && Ranked(node, defs) && from <= |node.props|
    requires forall i :: 0 <= i < |node.props| ==> Agrees(node.props[i].node, defs, rank)
    requires StackAbove(stack, Height(node, rank), rank)
    ensures FieldListPaths(ChildFields(node.props[from..], stack, defs, rank), base)
         == SpellProps(node.props[from..], base, defs, rank)
    decreases Height(node, rank), node, 0, |node.props| - from
  {
    if from < |node.props| {
      hide Describe, Spell, FieldPaths, Agrees, Acyclic, Height, ChildFields, SpellProps, FieldListPaths;
      var p := node.props[from];
      var rest := node.props[from..];
      assert rest[0] == p && rest[1..] == node.props[from + 1..];
      ChildStackAbove(node, from, stack, rank);
      AgreeingFieldPaths(p.name, p.node, stack, base + [Key(p.name)], defs, rank);
      AgreeingChildPaths(node, from + 1, stack, base, defs, rank);
      FirstChildPaths(rest, stack, base, defs, rank);
    }
  }

  lemma ChildStackAbove(node: Node, i: nat, stack: seq<string>, rank: map<string, nat>)
    requires i < |node.props| && StackAbove(stack, Height(node, rank), rank)
    ensures StackAbove(stack, Height(node.props[i].node, rank), rank)
  {
    hide Height;
  }

  lemma FirstChildPaths(props: seq<Property>, stack: seq<string>, base: Path, defs: Defs, rank: map<string, nat>)
    requires Acyclic(defs, rank) && props != [] && forall i :: 0 <= i < |props| ==> Ranked(props[i].node, defs)
    requires Describe(props[0].name, props[0].node, stack, defs, rank).Some?
    ensures FieldListPaths(ChildFields(props, stack, defs, rank), base)
         == FieldPaths(Describe(props[0].name, props[0].node, stack, defs, rank).value, base + [Key(props[0].name)])
          + FieldListPaths(ChildFields(props[1..], stack, defs, rank), base)
    ensures SpellProps(props, base, defs, rank)
         == Spell(props[0].node, base + [Key(props[0].name)], defs, rank) + SpellProps(props[1..], base, defs, rank)
  {
    DescribedName(props[0].name, props[0].node, stack, defs, rank);
    hide Describe, Spell, FieldPaths, Acyclic, Height;
    var field := Describe(props[0].name, props[0].node, stack, defs, rank).value;
    var fields := ChildFields(props, stack, defs, rank);
    assert fields == Listed(Some(field)) + ChildFields(props[1..], stack, defs, rank);
    assert fields[0] == field && fields[1..] == ChildFields(props[1..], stack, defs, rank);
  }

  // ---------------------------------------------------------------------------
  // Only then

  predicate DistinctNames(props: seq<Property>) {
    forall i, j :: 0 <= i < j < |props| ==> props[i].name != props[j].name
  }

  /** Properties are a dictionary: no key occurs twice, at any depth. */
  predicate DictNode(node: Node) {
    && DistinctNames(node.props)
    && (forall i :: 0 <= i < |node.props| ==> DictNode(node.props[i].node))
    && (node.items.Some? ==> DictNode(node.items.value))
  }

  predicate DictDefs(defs: Defs) {
    forall d :: d in defs ==> DictNode(defs[d])
  }

  lemma {:induction false} ResolvedIsDict(node: Node, defs: Defs, seen: set<string>)
    requires DictDefs(defs) && DictNode(node) && ResolveFrom(node, defs, seen).Resolved?
    ensures DictNode(ResolveFrom(node, defs, seen).node)
    decreases |defs.Keys - seen|
  {
    match node.ref
    case None =>
    case Some(name) =>
      assert name in defs.Keys - seen;
      Sets.SubsetSmaller(defs.Keys - (seen + {name}), defs.Keys - seen);
      ResolvedIsDict(defs[name], defs, seen + {name});
  }

  lemma DerefIsDict(node: Node, defs: Defs, rank: map<string, nat>)
    requires Acyclic(defs, rank) && Ranked(node, defs) && DictDefs(defs) && DictNode(node)
    ensures DictNode(Deref(node, defs, rank))
  {
    var target := Deref(node, defs, rank);
    ResolvedIsDict(node, defs, {});
  }

  lemma {:induction false} FieldListMember(fields: seq<Field>, base: Path, leaf: Path)
    ensures leaf in FieldListPaths(fields, base) <==>
            exists i :: 0 <= i < |fields| && leaf in FieldPaths(fields[i], base + [Key(fields[i].name)])
  {
    hide FieldPaths;
    if fields != [] {
      FieldListMember(fields[1..], base, leaf);
      if leaf in FieldListPaths(fields[1..], base) {
        var j :| 0 <= j < |fields[1..]| && leaf in FieldPaths(fields[1..][j], base + [Key(fields[1..][j].name)]);
        assert fields[j + 1] == fields[1..][j];
      }
      if i :| 0 <= i < |fields| && leaf in FieldPaths(fields[i], base + [Key(fields[i].name)]) {
        assert i > 0 ==> fields[1..][i - 1] == fields[i];
      }
    }
  }

  lemma {:induction false} FieldPathsUnder(field: Field, path: Path, leaf: Path)
    requires leaf in FieldPaths(field, path)
    ensures path <= leaf
    decreases field, 1
  {
    if field.kind == Object {
      FieldListUnder(field.fields, path, leaf);
    } else if field.kind == ObjectList {
      FieldListUnder(field.fields, path + [Elem], leaf);
    }
  }

  lemma {:induction false} FieldListUnder(fields: seq<Field>, base: Path, leaf: Path)
    requires leaf in FieldListPaths(fields, base)
    ensures base <= leaf && |leaf| > |base| && leaf[|base|].Key?
    decreases fields, 0
  {
    FieldListMember(fields, base, leaf);
    var i :| 0 <= i < |fields| && leaf in FieldPaths(fields[i], base + [Key(fields[i].name)]);
    FieldPathsUnder(fields[i], base + [Key(fields[i].name)], leaf);
    StepBack(leaf, base, Key(fields[i].name));
  }

  lemma {:induction false} ChildFieldsMember(
    props: seq<Property>, stack: seq<string>, defs: Defs, rank: map<string, nat>, field: Field)
    requires Acyclic(defs, rank) && forall i :: 0 <= i < |props| ==> Ranked(props[i].node, defs)
    ensures field in ChildFields(props, stack, defs, rank) ==>
            exists i :: 0 <= i < |props| && Describe(props[i].name, props[i].node, stack, defs, rank) == Some(field)
    decreases |props|
  {
    hide Describe;
    if props != [] && field in ChildFields(props, stack, defs, rank) {
      ChildFieldsMember(props[1..], stack, defs, rank, field);
      if field in ChildFields(props[1..], stack, defs, rank) {
        var j :| 0 <= j < |props[1..]| &&
                 Describe(props[1..][j].name, props[1..][j].node, stack, defs, rank) == Some(field);
        assert props[j + 1] == props[1..][j];
      } else {
        assert Describe(props[0].name, props[0].node, stack, defs, rank) == Some(field);
      }
    }
  }

  /** A set path that lies under one property comes from that property's field. */
  lemma PathBelongsToItsProperty(
    props: seq<Property>, k: nat, stack: seq<string>, base: Path, defs: Defs, rank: map<string, nat>, leaf: Path)
    requires Acyclic(defs, rank) && forall i :: 0 <= i < |props| ==> Ranked(props[i].node, defs)
    requires DistinctNames(props) && k < |props| && base + [Key(props[k].name)] <= leaf
    requires leaf in FieldListPaths(ChildFields(props, stack, defs, rank), base)
    ensures leaf in OptionalPaths(Describe(props[k].name, props[k].node, stack, defs, rank), base + [Key(props[k].name)])
  {
    hide Describe, ChildFields, FieldPaths, FieldListPaths;
    var fields := ChildFields(props, stack, defs, rank);
    FieldListMember(fields, base, leaf);
    var i :| 0 <= i < |fields| && leaf in FieldPaths(fields[i], base + [Key(fields[i].name)]);
    ChildFieldsMember(props, stack, defs, rank, fields[i]);
    var j :| 0 <= j < |props| && Describe(props[j].name, props[j].node, stack, defs, rank) == Some(fields[i]);
    DescribedName(props[j].name, props[j].node, stack, defs, rank);
    FieldPathsUnder(fields[i], base + [Key(fields[i].name)], leaf);
    StepBack(leaf, base, Key(fields[i].name));
    StepBack(leaf, base, Key(props[k].name));
    assert props[j].name == props[k].name;
  }

  /** The generator sets every leaf the schema spells for this node. */
  ghost predicate Covered(name: string, node: Node, stack: seq<string>, path: Path, defs: Defs, rank: map<string, nat>)
    requires Acyclic(defs, rank) && Ranked(node, defs)
  {
    forall leaf :: leaf in Spell(node, path, defs, rank) ==>
      leaf in OptionalPaths(Describe(name, node, stack, defs, rank), path)
  }

  lemma CoveredChildren(
    node: Node, k: nat, stack: seq<string>, base: Path, defs: Defs, rank: map<string, nat>)
    requires Acyclic(defs, rank) && Ranked(node, defs) && DistinctNames(node.props) && k < |node.props|
    requires forall leaf :: leaf in SpellProps(node.props, base, defs, rank) ==>
               leaf in FieldListPaths(ChildFields(node.props, stack, defs, rank), base)
    ensures Covered(node.props[k].name, node.props[k].node, stack, base + [Key(node.props[k].name)], defs, rank)
  {
    hide Spell, SpellProps, Describe, ChildFields, FieldPaths, FieldListPaths, Acyclic;
    var p := node.props[k];
    var below := base + [Key(p.name)];
    forall leaf | leaf in Spell(p.node, below, defs, rank)
      ensures leaf in OptionalPaths(Describe(p.name, p.node, stack, defs, rank), below)
    {
      SpellPropsMember(node.props, base, defs, rank, leaf);
      SpellUnder(p.node, below, defs, rank, leaf);
      PathBelongsToItsProperty(node.props, k, stack, base, defs, rank, leaf);
    }
  }

  lemma {:induction false} CoveredAgrees(
    name: string, node: Node, stack: seq<string>, path: Path, defs: Defs, rank: map<string, nat>)
    requires Acyclic(defs, rank) && Ranked(node, defs) && DictDefs(defs) && DictNode(node)
    requires StackAbove(stack, Height(node, rank), rank)
    requires Covered(name, node, stack, path, defs, rank)
    ensures Agrees(node, defs, rank)
    decreases Height(node, rank), node, 1
  {
    hide Describe, Spell, SpellProps, ChildFields, FieldPaths, FieldListPaths, Acyclic, Height, Deref, DictNode, Covered;
    var target := Deref(node, defs, rank);
    CoveredAgreesHere(name, node, stack, path, defs, rank);
    DerefIsDict(node, defs, rank);
    var inner := Push(node, stack);
    if target.hasEnum {
    } else if target.kind == "array" {
      DictItems(target);
      var item := Deref(target.items.value, defs, rank);
      DerefIsDict(target.items.value, defs, rank);
      if item.props != [] {
        UnfoldCovered(name, node, stack, path, defs, rank);
        CoveredPropsAgree(item, inner, path + [Elem], defs, rank);
      }
    } else if target.props != [] {
      UnfoldCovered(name, node, stack, path, defs, rank);
      CoveredPropsAgree(target, inner, path, defs, rank);
    }
  }

  lemma DictItems(node: Node)
    requires DictNode(node) && node.items.Some?
    ensures DictNode(node.items.value)
  {
  }

  /** Coverage of a property list reaches every property. */
  lemma {:induction false} CoveredPropsAgree(
    node: Node, stack: seq<string>, base: Path, defs: Defs, rank: map<string, nat>)
    requires Acyclic(defs, rank) && Ranked(node, defs) && DictDefs(defs) && DictNode(node)
    requires StackAbove(stack, Height(node, rank), rank)
    requires forall leaf :: leaf in SpellProps(node.props, base, defs, rank) ==>
               leaf in FieldListPaths(ChildFields(node.props, stack, defs, rank), base)
    ensures forall i :: 0 <= i < |node.props| ==> Agrees(node.props[i].node, defs, rank)
    decreases Height(node, rank), node, 0
  {
    hide SpellProps, ChildFields, FieldListPaths, Acyclic, Height, Covered, Agrees;
    forall i | 0 <= i < |node.props| ensures Agrees(node.props[i].node, defs, rank) {
      var p := node.props[i];
      CoveredChildren(node, i, stack, base, defs, rank);
      CoveredAgrees(p.name, p.node, stack, base + [Key(p.name)], defs, rank);
    }
  }

  /** Coverage of a node with children is coverage of the children. */
  lemma UnfoldCovered(
    name: string, node: Node, stack: seq<string>, path: Path, defs: Defs, rank: map<string, nat>)
    requires Acyclic(defs, rank) && Ranked(node, defs) && Covered(name, node, stack, path, defs, rank)
    requires AgreesHere(Deref(node, defs, rank)) && !Deref(node, defs, rank).hasEnum
    requires StackAbove(stack, Height(node, rank), rank)
    ensures var target := Deref(node, defs, rank);
      var inner := Push(node, stack);
      if target.kind == "array" then
        var item := Deref(target.items.value, defs, rank);
        item.props != [] ==>
          forall leaf :: leaf in SpellProps(item.props, path + [Elem], defs, rank) ==>
            leaf in FieldListPaths(ChildFields(item.props, inner, defs, rank), path + [Elem])
      else
        target.props != [] ==>
          forall leaf :: leaf in SpellProps(target.props, path, defs, rank) ==>
            leaf in FieldListPaths(ChildFields(target.props, inner, defs, rank), path)
  {
    hide SpellProps, ChildFields, FieldListPaths, Acyclic, Height, Deref;
    var target := Deref(node, defs, rank);
    var inner := Push(node, stack);
    var spelled, settable := Spell(node, path, defs, rank), OptionalPaths(Describe(name, node, stack, defs, rank), path);
    if target.kind == "array" {
      var item := Deref(target.items.value, defs, rank);
      if item.props != [] {
        assert spelled == SpellProps(item.props, path + [Elem], defs, rank);
        assert settable == FieldListPaths(ChildFields(item.props, inner, defs, rank), path + [Elem]);
      }
    } else if target.props != [] {
      assert spelled == SpellProps(target.props, path, defs, rank);
      assert settable == FieldListPaths(ChildFields(target.props, inner, defs, rank), path);
    }
  }

  lemma CoveredAgreesHere(
    name: string, node: Node, stack: seq<string>, path: Path, defs: Defs, rank: map<string, nat>)
    requires Acyclic(defs, rank) && Ranked(node, defs) && Covered(name, node, stack, path, defs, rank)
    requires StackAbove(stack, Height(node, rank), rank)
    ensures AgreesHere(Deref(node, defs, rank))
  {
    hide SpellProps, ChildFields, FieldListPaths, Acyclic, Height, Deref;
    var target := Deref(node, defs, rank);
    var leaf := Spell(node, path, defs, rank)[0];
    assert leaf in Spell(node, path, defs, rank);
    if target.props != [] {
      SpellPropsKey(target, path, defs, rank, leaf);
      if target.kind == "array" && !target.hasEnum {
        var item := Deref(ItemsOf(target), defs, rank);
        if item.props != [] {
          FieldListUnder(ChildFields(item.props, Push(node, stack), defs, rank), path + [Elem], leaf);
          StepBack(leaf, path, Elem);
        }
      }
    } else if target.kind == "array" && target.items.Some? {
      var item := Deref(target.items.value, defs, rank);
      if item.props != [] {
        SpellPropsUnder(item, path + [Elem], defs, rank, leaf);
      }
    }
  }

  lemma SpellPropsKey(node: Node, base: Path, defs: Defs, rank: map<string, nat>, leaf: Path)
    requires Acyclic(defs, rank) && Ranked(node, defs) && leaf in SpellProps(node.props, base, defs, rank)
    ensures base <= leaf && |leaf| > |base| && leaf[|base|].Key?
  {
    hide Spell;
    SpellPropsMember(node.props, base, defs, rank, leaf);
    var i :| 0 <= i < |node.props| && leaf in Spell(node.props[i].node, base + [Key(node.props[i].name)], defs, rank);
    SpellUnder(node.props[i].node, base + [Key(node.props[i].name)], defs, rank, leaf);
    StepBack(leaf, base, Key(node.props[i].name));
  }

  /** The generator sets every leaf of a node exactly when the two scripts read
      every shape below it alike. */
  lemma CoveredExactlyWhenAgreeing(
    name: string, node: Node, path: Path, defs: Defs, rank: map<string, nat>)
    requires Acyclic(defs, rank) && Ranked(node, defs) && DictDefs(defs) && DictNode(node)
    ensures Covered(name, node, [], path, defs, rank) <==> Agrees(node, defs, rank)
  {
    if Covered(name, node, [], path, defs, rank) {
      CoveredAgrees(name, node, [], path, defs, rank);
    } else if Agrees(node, defs, rank) {
      AgreeingFieldPaths(name, node, [], path, defs, rank);
    }
  }
}
