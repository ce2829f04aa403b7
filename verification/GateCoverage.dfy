/** What the parity gate leaves out. It walks a definition once per property name, so
    it does not list every leaf an acyclic schema spells -- but each leaf it skips has
    a stand-in that it lists: the same remainder below another entry into the same
    definition under the same last segment. */
module GateCoverage {
  import opened Text
  import opened Schema
  import opened LeafWalk
  import opened Parity

  /** Following `path` from `start` leads to `node`. */
  ghost predicate At(start: Node, path: Path, node: Node, defs: Defs)
    decreases |path|
  {
    if path == [] then start == node
    else
      Goal(start, defs).Ended? &&
      var target := Goal(start, defs).value;
      match path[0]
      case Key(name) =>
        exists i :: 0 <= i < |target.props| && target.props[i].name == name && At(target.props[i].node, path[1..], node, defs)
      case Elem =>
        target.kind == "array" && target.items.Some? && At(target.items.value, path[1..], node, defs)
  }

  lemma {:induction false} AtProperty(start: Node, path: Path, node: Node, i: nat, defs: Defs)
    requires At(start, path, node, defs) && Goal(node, defs).Ended? && i < |Goal(node, defs).value.props|
    ensures var p := Goal(node, defs).value.props[i]; At(start, path + [Key(p.name)], p.node, defs)
    decreases |path|
  {
    var p := Goal(node, defs).value.props[i];
    var longer := path + [Key(p.name)];
    if path == [] {
      assert longer[1..] == [];
      assert At(p.node, longer[1..], p.node, defs);
    } else {
      assert longer[1..] == path[1..] + [Key(p.name)];
      var target := Goal(start, defs).value;
      match path[0]
      case Key(name) =>
        var j :| 0 <= j < |target.props| && target.props[j].name == name && At(target.props[j].node, path[1..], node, defs);
        AtProperty(target.props[j].node, path[1..], node, i, defs);
      case Elem => AtProperty(target.items.value, path[1..], node, i, defs);
    }
  }

  lemma {:induction false} AtItems(start: Node, path: Path, node: Node, defs: Defs)
    requires At(start, path, node, defs) && Goal(node, defs).Ended?
    requires Goal(node, defs).value.kind == "array" && Goal(node, defs).value.items.Some?
    ensures At(start, path + [Elem], Goal(node, defs).value.items.value, defs)
    decreases |path|
  {
    var longer := path + [Elem];
    if path == [] {
      assert longer[1..] == [];
    } else {
      assert longer[1..] == path[1..] + [Elem];
      var target := Goal(start, defs).value;
      match path[0]
      case Key(name) =>
        var j :| 0 <= j < |target.props| && target.props[j].name == name && At(target.props[j].node, path[1..], node, defs);
        AtItems(target.props[j].node, path[1..], node, defs);
      case Elem => AtItems(target.items.value, path[1..], node, defs);
    }
  }

  // ---------------------------------------------------------------------------
  // Stand-ins

  /** `path` enters the definition `name`. */
  ghost predicate Enters(root: Node, path: Path, name: string, defs: Defs) {
    exists node: Node :: node.ref == Some(name) && At(root, path, node, defs)
  }

  /** Both leaves have the same remainder, below two entries into one definition under
      the same last segment. */
  ghost predicate StandsIn(root: Node, leaf: Path, other: Path, defs: Defs) {
    exists p: Path, q: Path, name: string ::
      && Enters(root, p, name, defs) && Enters(root, q, name, defs) && LastSegment(p) == LastSegment(q)
      && p <= leaf && other == q + leaf[|p|..]
  }

  /** A listed leaf stands in for this one, perhaps through others. */
  ghost predicate Told(root: Node, leaf: Path, leaves: seq<Path>, defs: Defs) {
    exists chain: seq<Path> ::
      && chain != [] && chain[0] == leaf && chain[|chain| - 1] in leaves
      && forall i :: 0 <= i < |chain| - 1 ==> StandsIn(root, chain[i], chain[i + 1], defs)
  }

  lemma ListedIsTold(root: Node, leaf: Path, leaves: seq<Path>, defs: Defs)
    requires leaf in leaves
    ensures Told(root, leaf, leaves, defs)
  {
    var chain := [leaf];
    assert chain[0] == leaf && chain[|chain| - 1] in leaves;
  }

  lemma TellOn(root: Node, leaf: Path, other: Path, leaves: seq<Path>, defs: Defs)
    requires StandsIn(root, leaf, other, defs) && Told(root, other, leaves, defs)
    ensures Told(root, leaf, leaves, defs)
  {
    hide StandsIn;
    var chain :| && chain != [] && chain[0] == other && chain[|chain| - 1] in leaves
                 && forall i :: 0 <= i < |chain| - 1 ==> StandsIn(root, chain[i], chain[i + 1], defs);
    var longer := [leaf] + chain;
    forall i | 0 <= i < |longer| - 1 ensures StandsIn(root, longer[i], longer[i + 1], defs) {
      if i > 0 {
        var at := i - 1;
        assert StandsIn(root, chain[at], chain[at + 1], defs);
      }
    }
    assert longer[|longer| - 1] == chain[|chain| - 1];
  }

  lemma ToldStays(root: Node, leaf: Path, leaves: seq<Path>, more: seq<Path>, defs: Defs)
    requires Told(root, leaf, leaves, defs) && leaves <= more
    ensures Told(root, leaf, more, defs)
  {
    hide StandsIn;
    var chain :| && chain != [] && chain[0] == leaf && chain[|chain| - 1] in leaves
                 && forall i :: 0 <= i < |chain| - 1 ==> StandsIn(root, chain[i], chain[i + 1], defs);
    assert chain[|chain| - 1] in more;
  }

  // ---------------------------------------------------------------------------
  // Spelled leaves move with their definition

  lemma {:induction false} SpellMoves(node: Node, p: Path, q: Path, rest: Path, defs: Defs, rank: map<string, nat>)
    requires Acyclic(defs, rank) && Ranked(node, defs) && p + rest in Spell(node, p, defs, rank)
    ensures q + rest in Spell(node, q, defs, rank)
    decreases Height(node, rank), node, 1
  {
    hide Acyclic, Height, SpellProps;
    var target := Deref(node, defs, rank);
    if target.props != [] {
      SpellPropsMove(target, p, q, rest, defs, rank);
    } else if target.kind == "array" && target.items.Some? {
      var item := Deref(target.items.value, defs, rank);
      if item.props != [] {
        SpellPropsUnder(item, p + [Elem], defs, rank, p + rest);
        var below := rest[1..];
        assert rest[0] == (p + rest)[|p|] == (p + [Elem])[|p|] == Elem;
        assert p + rest == p + [Elem] + below && q + rest == q + [Elem] + below;
        SpellPropsMove(item, p + [Elem], q + [Elem], below, defs, rank);
      } else {
        assert (p + rest)[|p|..] == rest && (p + [Elem])[|p|..] == [Elem];
      }
    } else {
      assert (p + rest)[|p|..] == rest && p[|p|..] == [];
      assert q + [] == q;
    }
  }

  lemma {:induction false} SpellPropsMove(node: Node, p: Path, q: Path, rest: Path, defs: Defs, rank: map<string, nat>)
    requires Acyclic(defs, rank) && Ranked(node, defs) && p + rest in SpellProps(node.props, p, defs, rank)
    ensures q + rest in SpellProps(node.props, q, defs, rank)
    decreases Height(node, rank), node, 0
  {
    hide Acyclic, Height, Spell, SpellProps;
    SpellPropsMember(node.props, p, defs, rank, p + rest);
    var i :| 0 <= i < |node.props| && p + rest in Spell(node.props[i].node, p + [Key(node.props[i].name)], defs, rank);
    var key := [Key(node.props[i].name)];
    SpellUnder(node.props[i].node, p + key, defs, rank, p + rest);
    var below := rest[1..];
    assert rest[0] == (p + rest)[|p|] == (p + key)[|p|];
    assert p + rest == p + key + below && q + rest == q + key + below;
    SpellMoves(node.props[i].node, p + key, q + key, below, defs, rank);
    SpellPropsMember(node.props, q, defs, rank, q + rest);
  }

  // ---------------------------------------------------------------------------
  // The walk

  lemma SpellOfReference(node: Node, name: string, path: Path, defs: Defs, rank: map<string, nat>)
    requires Acyclic(defs, rank) && Ranked(node, defs) && node.ref == Some(name)
    ensures Ranked(RefTo(name), defs) && Spell(RefTo(name), path, defs, rank) == Spell(node, path, defs, rank)
  {
    hide SpellProps;
    assert Ranked(RefTo(name), defs);
    assert Deref(RefTo(name), defs, rank) == Deref(node, defs, rank);
  }

  /** All leaves of a definition entered at `path` are accounted for. */
  ghost predicate AllTold(root: Node, name: string, path: Path, leaves: seq<Path>, defs: Defs, rank: map<string, nat>)
    requires Acyclic(defs, rank)
  {
    Ranked(RefTo(name), defs) &&
    forall leaf :: leaf in Spell(RefTo(name), path, defs, rank) ==> Told(root, leaf, leaves, defs)
  }

  /** Every recorded definition was entered there, and is either still open or
      accounted for. */
  ghost predicate Settled(root: Node, found: Found, stack: seq<string>, defs: Defs, rank: map<string, nat>)
    requires Acyclic(defs, rank)
  {
    forall name :: name in found.first ==>
      && Enters(root, found.first[name], name, defs)
      && (name in stack || AllTold(root, name, found.first[name], found.leaves, defs, rank))
  }

  ghost predicate Extends(before: Found, after: Found) {
    && before.leaves <= after.leaves
    && forall name :: name in before.first ==> name in after.first && after.first[name] == before.first[name]
  }

  lemma AllToldStays(root: Node, name: string, path: Path, leaves: seq<Path>, more: seq<Path>, defs: Defs, rank: map<string, nat>)
    requires Acyclic(defs, rank) && leaves <= more && AllTold(root, name, path, leaves, defs, rank)
    ensures AllTold(root, name, path, more, defs, rank)
  {
    hide Told, Spell, Acyclic;
    forall leaf | leaf in Spell(RefTo(name), path, defs, rank) ensures Told(root, leaf, more, defs) {
      ToldStays(root, leaf, leaves, more, defs);
    }
  }

  /** A skipped entry is accounted for by the recorded one. */
  lemma SkippedIsTold(root: Node, node: Node, path: Path, stack: seq<string>, found: Found, defs: Defs, rank: map<string, nat>)
    requires Acyclic(defs, rank) && Ranked(node, defs) && At(root, path, node, defs) && node.ref.Some?
    requires Settled(root, found, stack, defs, rank) && node.ref.value !in stack
    requires Repeated(found.first, node.ref.value, path)
    ensures forall leaf :: leaf in Spell(node, path, defs, rank) ==> Told(root, leaf, found.leaves, defs)
  {
    hide Told, Spell, Acyclic, At, LastSegment;
    var name := node.ref.value;
    var q := found.first[name];
    SpellOfReference(node, name, q, defs, rank);
    assert Enters(root, path, name, defs) && Enters(root, q, name, defs);
    forall leaf | leaf in Spell(node, path, defs, rank) ensures Told(root, leaf, found.leaves, defs) {
      SpellUnder(node, path, defs, rank, leaf);
      var rest := leaf[|path|..];
      assert leaf == path + rest;
      SpellMoves(node, path, q, rest, defs, rank);
      assert StandsIn(root, leaf, q + rest, defs);
      TellOn(root, leaf, q + rest, found.leaves, defs);
    }
  }

  lemma {:induction false} WalkTells(
    root: Node, node: Node, path: Path, stack: seq<string>, found: Found, defs: Defs, rank: map<string, nat>)
    requires Acyclic(defs, rank) && Ranked(node, defs) && StackAbove(stack, Height(node, rank), rank)
    requires At(root, path, node, defs) && Settled(root, found, stack, defs, rank)
    ensures var after := Walk(node, path, stack, found, defs);
            && after.Ended? && Extends(found, after.value) && Settled(root, after.value, stack, defs, rank)
            && forall leaf :: leaf in Spell(node, path, defs, rank) ==> Told(root, leaf, after.value.leaves, defs)
    decreases |Fresh(defs, stack)|, node, 2
  {
    hide At, Told, Acyclic, Height, Expand, Repeated, Settled;
    var target := Deref(node, defs, rank);
    match node.ref
    case None => ExpandTells(root, node, node, path, stack, found, defs, rank);
    case Some(name) =>
      assert name !in stack;
      if Repeated(found.first, name, path) {
        SkippedIsTold(root, node, path, stack, found, defs, rank);
      } else {
        FreshShrinks(defs, stack, name);
        var entered := Record(found, name, path);
        EnteredIsSettled(root, node, path, stack, found, defs, rank);
        ExpandTells(root, node, target, path, stack + [name], entered, defs, rank);
        assert Spell(target, path, defs, rank) == Spell(node, path, defs, rank);
        var after := Walk(node, path, stack, found, defs).value;
        LeftIsSettled(root, node, path, stack, found, after, defs, rank);
      }
  }

  lemma EnteredIsSettled(root: Node, node: Node, path: Path, stack: seq<string>, found: Found, defs: Defs, rank: map<string, nat>)
    requires Acyclic(defs, rank) && node.ref.Some? && At(root, path, node, defs) && Settled(root, found, stack, defs, rank)
    ensures Settled(root, Record(found, node.ref.value, path), stack + [node.ref.value], defs, rank)
  {
    hide At, AllTold, Acyclic;
    assert Enters(root, path, node.ref.value, defs);
  }

  /** Coming back from a definition, it is accounted for itself. */
  lemma LeftIsSettled(
    root: Node, node: Node, path: Path, stack: seq<string>, found: Found, after: Found, defs: Defs, rank: map<string, nat>)
    requires Acyclic(defs, rank) && Ranked(node, defs) && node.ref.Some? && node.ref.value !in stack
    requires Settled(root, found, stack, defs, rank)
    requires Settled(root, after, stack + [node.ref.value], defs, rank)
    requires Extends(Record(found, node.ref.value, path), after)
    requires forall leaf :: leaf in Spell(node, path, defs, rank) ==> Told(root, leaf, after.leaves, defs)
    ensures Settled(root, after, stack, defs, rank)
  {
    hide Told, Spell, Acyclic, Enters;
    var name := node.ref.value;
    if name in found.first {
      AllToldStays(root, name, found.first[name], found.leaves, after.leaves, defs, rank);
    } else {
      SpellOfReference(node, name, path, defs, rank);
    }
  }

  lemma {:induction false} ExpandTells(
    root: Node, entry: Node, node: Node, path: Path, stack: seq<string>, found: Found, defs: Defs, rank: map<string, nat>)
    requires Acyclic(defs, rank) && Ranked(node, defs) && StackAbove(stack, Height(node, rank), rank)
    requires At(root, path, entry, defs) && Goal(entry, defs) == Ended(node)
    requires Settled(root, found, stack, defs, rank)
    ensures var after := Expand(node, path, stack, found, defs);
            && after.Ended? && Extends(found, after.value) && Settled(root, after.value, stack, defs, rank)
            && forall leaf :: leaf in Spell(node, path, defs, rank) ==> Told(root, leaf, after.value.leaves, defs)
    decreases |Fresh(defs, stack)|, node, 1
  {
    hide At, Told, Acyclic, Height, Walk, WalkProps, Settled;
    if node.props != [] {
      PropsTell(root, entry, node, 0, path, stack, found, defs, rank);
      assert node.props[0..] == node.props;
    } else if node.kind == "array" && node.items.Some? {
      var items := node.items.value;
      var item := Deref(items, defs, rank);
      if item.props != [] {
        AtItems(root, path, entry, defs);
        WalkTells(root, items, path + [Elem], stack, found, defs, rank);
      } else {
        LeafTells(root, path + [Elem], stack, found, defs, rank);
      }
    } else {
      LeafTells(root, path, stack, found, defs, rank);
    }
  }

  lemma LeafTells(root: Node, leaf: Path, stack: seq<string>, found: Found, defs: Defs, rank: map<string, nat>)
    requires Acyclic(defs, rank) && Settled(root, found, stack, defs, rank)
    ensures Extends(found, Leaf(found, leaf)) && Settled(root, Leaf(found, leaf), stack, defs, rank)
    ensures Told(root, leaf, Leaf(found, leaf).leaves, defs)
  {
    hide Told, Acyclic, Enters, AllTold;
    ListedIsTold(root, leaf, Leaf(found, leaf).leaves, defs);
    forall name | name in found.first && name !in stack
      ensures AllTold(root, name, found.first[name], Leaf(found, leaf).leaves, defs, rank)
    {
      AllToldStays(root, name, found.first[name], found.leaves, Leaf(found, leaf).leaves, defs, rank);
    }
  }

  lemma {:induction false} PropsTell(
    root: Node, entry: Node, node: Node, from: nat, path: Path, stack: seq<string>, found: Found, defs: Defs, rank: map<string, nat>)
    requires Acyclic(defs, rank) && Ranked(node, defs) && StackAbove(stack, Height(node, rank), rank)
    requires At(root, path, entry, defs) && Goal(entry, defs) == Ended(node) && from <= |node.props|
    requires Settled(root, found, stack, defs, rank)
    ensures var after := WalkProps(node.props[from..], path, stack, found, defs);
            && after.Ended? && Extends(found, after.value) && Settled(root, after.value, stack, defs, rank)
            && forall leaf :: leaf in SpellProps(node.props[from..], path, defs, rank) ==> Told(root, leaf, after.value.leaves, defs)
    decreases |Fresh(defs, stack)|, node, 0, |node.props| - from
  {
    if from < |node.props| {
      hide At, Told, Acyclic, Height, Walk, Spell, Settled, WalkProps, SpellProps, StackAbove;
      var p := node.props[from];
      var rest := node.props[from..];
      assert rest[0] == p && rest[1..] == node.props[from + 1..];
      var below := path + [Key(p.name)];
      AtProperty(root, path, entry, from, defs);
      ChildStackAbove(node, from, stack, rank);
      WalkTells(root, p.node, below, stack, found, defs, rank);
      var next := Walk(p.node, below, stack, found, defs).value;
      PropsTell(root, entry, node, from + 1, path, stack, next, defs, rank);
      var after := WalkProps(rest[1..], path, stack, next, defs).value;
      forall leaf | leaf in Spell(p.node, below, defs, rank) ensures Told(root, leaf, after.leaves, defs) {
        ToldStays(root, leaf, next.leaves, after.leaves, defs);
      }
      FirstProperty(rest, path, stack, found, defs, rank);
    }
    NoProperty(path, stack, found, defs, rank);
  }

  lemma NoProperty(path: Path, stack: seq<string>, found: Found, defs: Defs, rank: map<string, nat>)
    requires Acyclic(defs, rank)
    ensures WalkProps([], path, stack, found, defs) == Ended(found) && SpellProps([], path, defs, rank) == []
  {
  }

  lemma FirstProperty(props: seq<Property>, path: Path, stack: seq<string>, found: Found, defs: Defs, rank: map<string, nat>)
    requires Acyclic(defs, rank) && props != [] && forall i :: 0 <= i < |props| ==> Ranked(props[i].node, defs)
    requires Walk(props[0].node, path + [Key(props[0].name)], stack, found, defs).Ended?
    ensures var next := Walk(props[0].node, path + [Key(props[0].name)], stack, found, defs).value;
            WalkProps(props, path, stack, found, defs) == WalkProps(props[1..], path, stack, next, defs)
    ensures SpellProps(props, path, defs, rank)
         == Spell(props[0].node, path + [Key(props[0].name)], defs, rank) + SpellProps(props[1..], path, defs, rank)
  {
    hide Walk, Spell, Acyclic, Height;
  }

  /** On an acyclic schema every spelled leaf is listed or has a listed stand-in. */
  lemma GateTellsEveryLeaf(schema: Node, defs: Defs, rank: map<string, nat>)
    requires Acyclic(defs, rank) && Ranked(schema, defs)
    ensures SchemaLeaves(schema, defs).Ended?
    ensures forall leaf :: leaf in Spell(schema, [], defs, rank) ==>
              Told(Deref(schema, defs, rank), leaf, SchemaLeaves(schema, defs).value, defs)
  {
    hide Told, Acyclic, Expand, Height;
    var root := Deref(schema, defs, rank);
    assert Spell(root, [], defs, rank) == Spell(schema, [], defs, rank);
    ExpandTells(root, root, root, [], [], Found([], map[]), defs, rank);
  }

  // ---------------------------------------------------------------------------
  // No leaf below a repeated entry

  /** On the way along `rest` from a node at `base`, every definition the walk enters is
      on record and not repeated. A list whose items have no properties is a leaf, and
      the definition of such items is not entered. */
  ghost predicate CleanAlong(node: Node, base: Path, rest: Path, first: map<string, Path>, defs: Defs)
    decreases |rest|
  {
    && (node.ref.Some? ==> node.ref.value in first && !Repeated(first, node.ref.value, base))
    && (rest == [] || CleanBelow(node, base, rest, first, defs))
  }

  ghost predicate CleanBelow(node: Node, base: Path, rest: Path, first: map<string, Path>, defs: Defs)
    requires rest != []
    decreases |rest|, 0
  {
    Goal(node, defs).Ended? &&
    var target := Goal(node, defs).value;
    match rest[0]
    case Key(name) =>
      forall i :: 0 <= i < |target.props| && target.props[i].name == name ==>
        CleanAlong(target.props[i].node, base + [rest[0]], rest[1..], first, defs)
    case Elem =>
      target.items.Some? ==>
        (rest[1..] == [] && Goal(target.items.value, defs).Ended? && Goal(target.items.value, defs).value.props == []) ||
        CleanAlong(target.items.value, base + [rest[0]], rest[1..], first, defs)
  }

  lemma {:induction false} CleanStays(node: Node, base: Path, rest: Path, before: Found, after: Found, defs: Defs)
    requires Extends(before, after) && CleanAlong(node, base, rest, before.first, defs)
    ensures CleanAlong(node, base, rest, after.first, defs)
    decreases |rest|
  {
    if rest != [] {
      CleanBelowStays(node, base, rest, before, after, defs);
    }
  }

  lemma {:induction false} CleanBelowStays(node: Node, base: Path, rest: Path, before: Found, after: Found, defs: Defs)
    requires Extends(before, after) && rest != [] && CleanBelow(node, base, rest, before.first, defs)
    ensures CleanBelow(node, base, rest, after.first, defs)
    decreases |rest|, 0
  {
    hide Extends, Repeated;
    var target := Goal(node, defs).value;
    match rest[0]
    case Key(name) =>
      forall i | 0 <= i < |target.props| && target.props[i].name == name
        ensures CleanAlong(target.props[i].node, base + [rest[0]], rest[1..], after.first, defs)
      {
        CleanStays(target.props[i].node, base + [rest[0]], rest[1..], before, after, defs);
      }
    case Elem =>
      if target.items.Some? && CleanAlong(target.items.value, base + [rest[0]], rest[1..], before.first, defs) {
        CleanStays(target.items.value, base + [rest[0]], rest[1..], before, after, defs);
      }
  }

  /** The leaves a walk adds lie under `path` and are reached cleanly. */
  ghost predicate AddsClean(before: Found, after: Found, node: Node, path: Path, defs: Defs) {
    Extends(before, after) &&
    forall i :: |before.leaves| <= i < |after.leaves| ==>
      path <= after.leaves[i] && CleanAlong(node, path, after.leaves[i][|path|..], after.first, defs)
  }

  ghost predicate AddsCleanBelow(before: Found, after: Found, node: Node, path: Path, defs: Defs) {
    Extends(before, after) &&
    forall i :: |before.leaves| <= i < |after.leaves| ==>
      path <= after.leaves[i] &&
      (after.leaves[i] == path || CleanBelow(node, path, after.leaves[i][|path|..], after.first, defs))
  }

  lemma {:induction false} WalkIsClean(
    node: Node, path: Path, stack: seq<string>, found: Found, defs: Defs, rank: map<string, nat>)
    requires Acyclic(defs, rank) && Ranked(node, defs) && StackAbove(stack, Height(node, rank), rank)
    requires DictDefs(defs) && DictNode(node)
    ensures var after := Walk(node, path, stack, found, defs);
            after.Ended? && AddsClean(found, after.value, node, path, defs)
    decreases |Fresh(defs, stack)|, node, 2
  {
    hide Acyclic, Height, Expand, CleanBelow, DictNode, DictDefs;
    var target := Deref(node, defs, rank);
    match node.ref
    case None =>
      ExpandIsClean(node, node, path, stack, found, defs, rank);
    case Some(name) =>
      assert name !in stack;
      if !Repeated(found.first, name, path) {
        FreshShrinks(defs, stack, name);
        DerefIsDict(node, defs, rank);
        ExpandIsClean(node, target, path, stack + [name], Record(found, name, path), defs, rank);
      }
  }

  lemma {:induction false} ExpandIsClean(
    entry: Node, node: Node, path: Path, stack: seq<string>, found: Found, defs: Defs, rank: map<string, nat>)
    requires Acyclic(defs, rank) && Ranked(node, defs) && StackAbove(stack, Height(node, rank), rank)
    requires Goal(entry, defs) == Ended(node) && DictDefs(defs) && DictNode(node)
    ensures var after := Expand(node, path, stack, found, defs);
            after.Ended? && AddsCleanBelow(found, after.value, entry, path, defs)
    decreases |Fresh(defs, stack)|, node, 1
  {
    hide Acyclic, Height, Walk, WalkProps, CleanAlong, DictDefs;
    if node.props != [] {
      PropsAreClean(entry, node, 0, path, stack, found, defs, rank);
      assert node.props[0..] == node.props;
    } else if node.kind == "array" && node.items.Some? {
      var items := node.items.value;
      var item := Deref(items, defs, rank);
      if item.props != [] {
        WalkIsClean(items, path + [Elem], stack, found, defs, rank);
        ItemsAreClean(entry, node, path, found, Walk(items, path + [Elem], stack, found, defs).value, defs);
      } else {
        assert (path + [Elem])[|path|..] == [Elem] && [Elem][1..] == [];
      }
    }
  }

  lemma ItemsAreClean(entry: Node, node: Node, path: Path, before: Found, after: Found, defs: Defs)
    requires Goal(entry, defs) == Ended(node) && node.items.Some?
    requires AddsClean(before, after, node.items.value, path + [Elem], defs)
    ensures AddsCleanBelow(before, after, entry, path, defs)
  {
    hide CleanAlong;
    forall i | |before.leaves| <= i < |after.leaves|
      ensures path <= after.leaves[i] && CleanBelow(entry, path, after.leaves[i][|path|..], after.first, defs)
    {
      StepBack(after.leaves[i], path, Elem);
    }
  }

  lemma PropertyIsClean(entry: Node, node: Node, k: nat, path: Path, before: Found, after: Found, defs: Defs)
    requires Goal(entry, defs) == Ended(node) && k < |node.props| && DistinctNames(node.props)
    requires AddsClean(before, after, node.props[k].node, path + [Key(node.props[k].name)], defs)
    ensures AddsCleanBelow(before, after, entry, path, defs)
  {
    hide CleanAlong;
    forall i | |before.leaves| <= i < |after.leaves|
      ensures path <= after.leaves[i] && CleanBelow(entry, path, after.leaves[i][|path|..], after.first, defs)
    {
      StepBack(after.leaves[i], path, Key(node.props[k].name));
    }
  }

  lemma CleanTogether(entry: Node, path: Path, a: Found, b: Found, c: Found, defs: Defs)
    requires AddsCleanBelow(a, b, entry, path, defs) && AddsCleanBelow(b, c, entry, path, defs)
    ensures AddsCleanBelow(a, c, entry, path, defs)
  {
    hide CleanBelow;
    forall i | |a.leaves| <= i < |c.leaves|
      ensures path <= c.leaves[i] && (c.leaves[i] == path || CleanBelow(entry, path, c.leaves[i][|path|..], c.first, defs))
    {
      if i < |b.leaves| {
        assert c.leaves[i] == b.leaves[i];
        if b.leaves[i] != path {
          CleanBelowStays(entry, path, b.leaves[i][|path|..], b, c, defs);
        }
      }
    }
  }

  lemma {:induction false} PropsAreClean(
    entry: Node, node: Node, from: nat, path: Path, stack: seq<string>, found: Found, defs: Defs, rank: map<string, nat>)
    requires Acyclic(defs, rank) && Ranked(node, defs) && StackAbove(stack, Height(node, rank), rank)
    requires Goal(entry, defs) == Ended(node) && DictDefs(defs) && DictNode(node) && from <= |node.props|
    ensures var after := WalkProps(node.props[from..], path, stack, found, defs);
            after.Ended? && AddsCleanBelow(found, after.value, entry, path, defs)
    decreases |Fresh(defs, stack)|, node, 0, |node.props| - from
  {
    if from < |node.props| {
      hide Acyclic, Height, Walk, WalkProps, AddsClean, AddsCleanBelow, StackAbove, DictDefs;
      var p := node.props[from];
      var rest := node.props[from..];
      assert rest[0] == p && rest[1..] == node.props[from + 1..];
      var below := path + [Key(p.name)];
      ChildStackAbove(node, from, stack, rank);
      WalkIsClean(p.node, below, stack, found, defs, rank);
      var next := Walk(p.node, below, stack, found, defs).value;
      PropertyIsClean(entry, node, from, path, found, next, defs);
      PropsAreClean(entry, node, from + 1, path, stack, next, defs, rank);
      FirstProperty(rest, path, stack, found, defs, rank);
      CleanTogether(entry, path, found, next, WalkProps(rest[1..], path, stack, next, defs).value, defs);
    }
  }

  /** Where the walk first entered each definition. */
  function FirstEntries(schema: Node, defs: Defs): map<string, Path> {
    match Goal(schema, defs)
    case Ended(root) =>
      (match Expand(root, [], [], Found([], map[]), defs)
       case Ended(found) => found.first
       case _ => map[])
    case _ => map[]
  }

  lemma {:induction false} CleanAt(start: Node, base: Path, rest: Path, first: map<string, Path>, defs: Defs, p: Path, node: Node)
    requires CleanAlong(start, base, rest, first, defs) && p <= rest && At(start, p, node, defs) && node.ref.Some?
    requires p == [] || p[|p| - 1].Key? || (Goal(node, defs).Ended? && Goal(node, defs).value.props != [])
    ensures node.ref.value in first && !Repeated(first, node.ref.value, base + p)
    decreases |p|
  {
    if p == [] {
      assert base + p == base;
    } else {
      hide Repeated, LastSegment;
      var target := Goal(start, defs).value;
      assert rest[0] == p[0] && p[1..] <= rest[1..] && base + [rest[0]] + p[1..] == base + p;
      match p[0]
      case Key(name) =>
        var i :| 0 <= i < |target.props| && target.props[i].name == name && At(target.props[i].node, p[1..], node, defs);
        CleanAt(target.props[i].node, base + [rest[0]], rest[1..], first, defs, p[1..], node);
      case Elem =>
        CleanAt(target.items.value, base + [rest[0]], rest[1..], first, defs, p[1..], node);
    }
  }

  /** One authoring surface is listed once: no listed leaf lies below an entry into a
      definition that was first entered elsewhere under the same last segment. */
  lemma NoLeafBelowRepeat(schema: Node, defs: Defs, rank: map<string, nat>, leaf: Path, p: Path, node: Node)
    requires Acyclic(defs, rank) && Ranked(schema, defs) && DictDefs(defs) && DictNode(schema)
    requires SchemaLeaves(schema, defs).Ended? && leaf in SchemaLeaves(schema, defs).value
    requires p <= leaf && At(Deref(schema, defs, rank), p, node, defs) && node.ref.Some?
    requires p == [] || p[|p| - 1].Key? || (Goal(node, defs).Ended? && Goal(node, defs).value.props != [])
    ensures var first, name := FirstEntries(schema, defs), node.ref.value;
            && name in first && Enters(Deref(schema, defs, rank), first[name], name, defs)
            && (first[name] == p || LastSegment(first[name]) != LastSegment(p))
  {
    hide Acyclic, Height, Expand, CleanBelow, CleanAlong, At, LastSegment, Enters, Told;
    var root := Deref(schema, defs, rank);
    DerefIsDict(schema, defs, rank);
    ExpandIsClean(root, root, [], [], Found([], map[]), defs, rank);
    var found := Expand(root, [], [], Found([], map[]), defs).value;
    var i :| 0 <= i < |found.leaves| && found.leaves[i] == leaf;
    assert leaf[0..] == leaf && [] + p == p;
    RootIsClean(root, leaf, found.first, defs);
    CleanAt(root, [], leaf, found.first, defs, p, node);
    AtStart(root, defs);
    ExpandTells(root, root, root, [], [], Found([], map[]), defs, rank);
  }

  lemma AtStart(root: Node, defs: Defs)
    ensures At(root, [], root, defs)
  {
  }

  lemma RootIsClean(root: Node, leaf: Path, first: map<string, Path>, defs: Defs)
    requires root.ref.None? && (leaf == [] || CleanBelow(root, [], leaf, first, defs))
    ensures CleanAlong(root, [], leaf, first, defs)
  {
  }
}
