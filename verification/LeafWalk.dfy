/** The leaf walk of scripts/check-authoring-parity.py: every settable field of
    the schema, found by a recursion that follows references, stops at cycles and
    visits a repeated definition under the same name once. */
module LeafWalk {
  import opened Text
  import opened Sets
  import opened Schema

  /** What the inner `walk` mutates: the leaves found so far and the first path at
      which each definition was entered. */
  datatype Found = Found(leaves: seq<Path>, first: map<string, Path>)

  /** `path.rsplit(".", 1)[-1]`: the last property name and the list marks after it. */
  function LastSegment(path: Path): Path {
    if path == [] then []
    else if path[|path| - 1].Key? then [path[|path| - 1]]
    else LastSegment(path[..|path| - 1]) + [path[|path| - 1]]
  }

  /** The text after the last dot, `s.rsplit(".", 1)[-1]`. */
  function AfterLastDot(s: string): string {
    if '.' in s then AfterLastDot(s[1..]) else s
  }

  lemma {:induction false} AfterLastDotAppend(a: string, b: string)
    requires '.' !in b
    ensures AfterLastDot(a + b) == AfterLastDot(a) + b
    ensures AfterLastDot(a + "." + b) == b
  {
    if a == [] {
      assert a + b == b && (a + "." + b)[1..] == b && (a + "." + b)[0] == '.';
    } else {
      AfterLastDotAppend(a[1..], b);
      assert (a + b)[1..] == a[1..] + b && (a + "." + b)[1..] == a[1..] + "." + b;
      assert (a + "." + b)[|a|] == '.';
      assert '.' in a + b <==> '.' in a;
    }
  }

  lemma {:induction false} LastSegmentText(path: Path)
    requires PlainPath(path)
    ensures PlainPath(LastSegment(path)) && AfterLastDot(Render(path)) == Render(LastSegment(path))
  {
    if path != [] {
      var front, last := path[..|path| - 1], path[|path| - 1];
      assert PlainPath(front);
      LastSegmentText(front);
      match last
      case Elem =>
        AfterLastDotAppend(Render(front), "[]");
        var segment := LastSegment(path);
        assert segment[..|segment| - 1] == LastSegment(front);
      case Key(name) =>
        AfterLastDotAppend(Render(front), name);
        assert [last][..0] == [];
    }
  }

  /** Comparing last segments is comparing the printed text after the last dot. */
  lemma SameSegmentSameText(p: Path, q: Path)
    requires PlainPath(p) && PlainPath(q)
    ensures LastSegment(p) == LastSegment(q) <==> AfterLastDot(Render(p)) == AfterLastDot(Render(q))
  {
    LastSegmentText(p);
    LastSegmentText(q);
    if Render(LastSegment(p)) == Render(LastSegment(q)) {
      RenderInjective(LastSegment(p), LastSegment(q));
    }
  }

  /** The same definition was entered under the same property name elsewhere. */
  predicate Repeated(first: map<string, Path>, name: string, path: Path) {
    name in first && LastSegment(first[name]) == LastSegment(path) && first[name] != path
  }

  function Record(found: Found, name: string, path: Path): Found {
    if name in found.first then found else found.(first := found.first[name := path])
  }

  function Leaf(found: Found, path: Path): Found {
    found.(leaves := found.leaves + [path])
  }

  /** Definitions that are not on the stack: what bounds the depth of the walk. */
  function Fresh(defs: Defs, stack: seq<string>): set<string> {
    set d | d in defs && d !in stack
  }

  lemma FreshShrinks(defs: Defs, stack: seq<string>, name: string)
    requires name in defs && name !in stack
    ensures |Fresh(defs, stack + [name])| < |Fresh(defs, stack)|
  {
    assert name in Fresh(defs, stack) && name !in Fresh(defs, stack + [name]);
    SubsetSmaller(Fresh(defs, stack + [name]), Fresh(defs, stack));
  }

  /** `walk(node, path, stack)`. The measure is the definitions not on the stack,
      then the size of the inline node, so cyclic schemas are walked too. */
  function Walk(node: Node, path: Path, stack: seq<string>, found: Found, defs: Defs): Attempt<Found>
    decreases |Fresh(defs, stack)|, node, 2
  {
    match node.ref
    case None => Expand(node, path, stack, found, defs)
    case Some(name) =>
      if name in stack then Ended(Leaf(found, path))
      else if Repeated(found.first, name, path) then Ended(found)
      else
        var target :- Goal(node, defs);
        FreshShrinks(defs, stack, name);
        Expand(target, path, stack + [name], Record(found, name, path), defs)
  }

  function Expand(node: Node, path: Path, stack: seq<string>, found: Found, defs: Defs): Attempt<Found>
    decreases |Fresh(defs, stack)|, node, 1
  {
    if node.props != [] then WalkProps(node.props, path, stack, found, defs)
    else if node.kind == "array" && node.items.Some? then
      var item :- Goal(node.items.value, defs);
      if item.props != [] then Walk(node.items.value, path + [Elem], stack, found, defs)
      else Ended(Leaf(found, path + [Elem]))
    else Ended(Leaf(found, path))
  }

  function WalkProps(props: seq<Property>, path: Path, stack: seq<string>, found: Found, defs: Defs): Attempt<Found>
    decreases |Fresh(defs, stack)|, props, 0
  {
    if props == [] then Ended(found)
    else
      var next :- Walk(props[0].node, path + [Key(props[0].name)], stack, found, defs);
      WalkProps(props[1..], path, stack, next, defs)
  }

  /** `schema_leaves`, before its final sort. */
  function SchemaLeaves(schema: Node, defs: Defs): Attempt<seq<Path>> {
    var root :- Goal(schema, defs);
    var found :- Expand(root, [], [], Found([], map[]), defs);
    Ended(found.leaves)
  }

  /** The closure state of `schema_leaves` and the recursion that updates it. */
  class Walker {
    const defs: Defs
    var leaves: seq<Path>
    var first: map<string, Path>

    constructor (defs: Defs)
      ensures this.defs == defs && State() == Found([], map[])
    {
      this.defs := defs;
      leaves := [];
      first := map[];
    }

    function State(): Found
      reads this
    {
      Found(leaves, first)
    }

    /** Returns whether no `KeyError` was raised. */
    method Visit(node: Node, path: Path, stack: seq<string>) returns (ok: bool)
      requires !Walk(node, path, stack, State(), defs).Unfinished?
      modifies this
      ensures var walked := Walk(node, path, stack, old(State()), defs);
              if ok then walked == Ended(State()) else walked == Raised
      decreases |Fresh(defs, stack)|, node
    {
      var open := stack;
      if node.ref.Some? {
        var name := node.ref.value;
        if name in stack {
          leaves := leaves + [path];
          return true;
        }
        if name in first && LastSegment(first[name]) == LastSegment(path) && first[name] != path {
          return true;
        }
        if name !in first {
          first := first[name := path];
        }
        open := stack + [name];
      }
      ghost var entered := State();
      var resolved := FollowReferences(node, defs);
      if resolved.Raised? {
        return false;
      }
      if node.ref.Some? {
        FreshShrinks(defs, stack, node.ref.value);
      }
      var target := resolved.value;
      if target.props != [] {
        var i := 0;
        while i < |target.props|
          invariant 0 <= i <= |target.props|
          invariant WalkProps(target.props[i..], path, open, State(), defs)
                 == WalkProps(target.props, path, open, entered, defs)
        {
          var p := target.props[i];
          assert target.props[i..][0] == p && target.props[i..][1..] == target.props[i + 1..];
          ok := Visit(p.node, path + [Key(p.name)], open);
          if !ok {
            return false;
          }
          i := i + 1;
        }
        return true;
      }
      if target.kind == "array" && target.items.Some? {
        var items := target.items.value;
        var item := FollowReferences(items, defs);
        if item.Raised? {
          return false;
        }
        if item.value.props != [] {
          ok := Visit(items, path + [Elem], open);
          return ok;
        }
        leaves := leaves + [path + [Elem]];
        return true;
      }
      leaves := leaves + [path];
      ok := true;
    }
  }

  /** `schema_leaves` */
  method CollectLeaves(schema: Node, defs: Defs) returns (r: Attempt<seq<Path>>)
    requires !SchemaLeaves(schema, defs).Unfinished?
    ensures r == SchemaLeaves(schema, defs)
  {
    var root := FollowReferences(schema, defs);
    if root.Raised? {
      return Raised;
    }
    var walker := new Walker(defs);
    var ok := walker.Visit(root.value, [], []);
    r := if ok then Ended(walker.leaves) else Raised;
  }

  // ---------------------------------------------------------------------------
  // The walk ends

  /** Nowhere in this node do references form a cycle by themselves. */
  ghost predicate NoAliasCycle(node: Node, defs: Defs) {
    && !AliasCycle(node, defs)
    && (forall i :: 0 <= i < |node.props| ==> NoAliasCycle(node.props[i].node, defs))
    && (node.items.Some? ==> NoAliasCycle(node.items.value, defs))
  }

  ghost predicate NoAliasCycles(defs: Defs) {
    forall d :: d in defs ==> NoAliasCycle(defs[d], defs)
  }

  lemma {:induction false} GoalHasNoCycle(node: Node, defs: Defs, seen: set<string>)
    requires NoAliasCycles(defs) && NoAliasCycle(node, defs) && ResolveFrom(node, defs, seen).Resolved?
    ensures NoAliasCycle(ResolveFrom(node, defs, seen).node, defs)
    decreases |defs.Keys - seen|
  {
    match node.ref
    case None =>
    case Some(name) =>
      assert name in defs.Keys - seen;
      SubsetSmaller(defs.Keys - (seen + {name}), defs.Keys - seen);
      GoalHasNoCycle(defs[name], defs, seen + {name});
  }

  lemma {:induction false} WalkEnds(node: Node, path: Path, stack: seq<string>, found: Found, defs: Defs)
    requires NoAliasCycles(defs) && NoAliasCycle(node, defs)
    ensures !Walk(node, path, stack, found, defs).Unfinished?
    decreases |Fresh(defs, stack)|, node, 2
  {
    LoopsExactlyOnCycle(node, defs);
    match node.ref
    case None => ExpandEnds(node, path, stack, found, defs);
    case Some(name) =>
      if name !in stack && Goal(node, defs).Ended? {
        FreshShrinks(defs, stack, name);
        GoalHasNoCycle(node, defs, {});
        ExpandEnds(Goal(node, defs).value, path, stack + [name], Record(found, name, path), defs);
      }
  }

  lemma {:induction false} ExpandEnds(node: Node, path: Path, stack: seq<string>, found: Found, defs: Defs)
    requires NoAliasCycles(defs) && NoAliasCycle(node, defs) && node.ref.None?
    ensures !Expand(node, path, stack, found, defs).Unfinished?
    decreases |Fresh(defs, stack)|, node, 1
  {
    if node.props != [] {
      PropsEnd(node.props, path, stack, found, defs);
    } else if node.kind == "array" && node.items.Some? {
      LoopsExactlyOnCycle(node.items.value, defs);
      WalkEnds(node.items.value, path + [Elem], stack, found, defs);
    }
  }

  lemma {:induction false} PropsEnd(props: seq<Property>, path: Path, stack: seq<string>, found: Found, defs: Defs)
    requires NoAliasCycles(defs) && forall i :: 0 <= i < |props| ==> NoAliasCycle(props[i].node, defs)
    ensures !WalkProps(props, path, stack, found, defs).Unfinished?
    decreases |Fresh(defs, stack)|, props, 0
  {
    if props != [] {
      var below := path + [Key(props[0].name)];
      WalkEnds(props[0].node, below, stack, found, defs);
      var next := Walk(props[0].node, below, stack, found, defs);
      if next.Ended? {
        PropsEnd(props[1..], path, stack, next.value, defs);
      }
    }
  }

  /** The gate ends on every schema, mutually recursive ones included, in which no
      references form a cycle by themselves; dangling references raise. */
  lemma GateEnds(schema: Node, defs: Defs)
    requires NoAliasCycles(defs) && NoAliasCycle(schema, defs)
    ensures !SchemaLeaves(schema, defs).Unfinished?
  {
    LoopsExactlyOnCycle(schema, defs);
    if Goal(schema, defs).Ended? {
      GoalHasNoCycle(schema, defs, {});
      ExpandEnds(Goal(schema, defs).value, [], [], Found([], map[]), defs);
    }
  }

  // ---------------------------------------------------------------------------
  // Every leaf is a field of the schema

  /** Following `path` from `node` through properties and list elements stays
      inside the schema. */
  ghost predicate RealPath(node: Node, path: Path, defs: Defs)
    decreases |path|
  {
    path == [] ||
    (Goal(node, defs).Ended? &&
     var target := Goal(node, defs).value;
     match path[0]
     case Key(name) =>
       exists i :: 0 <= i < |target.props| && target.props[i].name == name
                && RealPath(target.props[i].node, path[1..], defs)
     case Elem =>
       target.kind == "array" && target.items.Some? && RealPath(target.items.value, path[1..], defs))
  }

  /** The walk only appends, and what it appends lies under `path` in the schema. */
  ghost predicate Appends(before: Found, after: Found, node: Node, path: Path, defs: Defs) {
    && before.leaves <= after.leaves
    && forall i :: |before.leaves| <= i < |after.leaves| ==> Under(after.leaves[i], node, path, defs)
  }

  ghost predicate Under(leaf: Path, node: Node, path: Path, defs: Defs) {
    path <= leaf && RealPath(node, leaf[|path|..], defs)
  }

  lemma {:induction false} WalkIsReal(node: Node, path: Path, stack: seq<string>, found: Found, defs: Defs)
    requires Walk(node, path, stack, found, defs).Ended?
    ensures Appends(found, Walk(node, path, stack, found, defs).value, node, path, defs)
    decreases |Fresh(defs, stack)|, node, 2
  {
    match node.ref
    case None => ExpandIsReal(node, path, stack, found, defs);
    case Some(name) =>
      if name !in stack && !Repeated(found.first, name, path) {
        var target := Goal(node, defs).value;
        FreshShrinks(defs, stack, name);
        var entered := Record(found, name, path);
        ExpandIsReal(target, path, stack + [name], entered, defs);
        var after := Walk(node, path, stack, found, defs).value;
        forall i | |found.leaves| <= i < |after.leaves| ensures Under(after.leaves[i], node, path, defs) {
          assert Under(after.leaves[i], target, path, defs);
          SameTarget(node, target, after.leaves[i][|path|..], defs);
        }
      }
  }

  lemma SameTarget(node: Node, target: Node, path: Path, defs: Defs)
    requires Goal(node, defs) == Ended(target)
    ensures RealPath(node, path, defs) == RealPath(target, path, defs)
  {
  }

  lemma {:induction false} ExpandIsReal(node: Node, path: Path, stack: seq<string>, found: Found, defs: Defs)
    requires node.ref.None? && Expand(node, path, stack, found, defs).Ended?
    ensures Appends(found, Expand(node, path, stack, found, defs).value, node, path, defs)
    decreases |Fresh(defs, stack)|, node, 1
  {
    var after := Expand(node, path, stack, found, defs).value;
    if node.props != [] {
      PropsAreReal(node, 0, path, stack, found, defs);
    } else if node.kind == "array" && node.items.Some? {
      var items := node.items.value;
      if Goal(items, defs).value.props != [] {
        WalkIsReal(items, path + [Elem], stack, found, defs);
        forall i | |found.leaves| <= i < |after.leaves| ensures Under(after.leaves[i], node, path, defs) {
          UnderItems(after.leaves[i], node, path, defs);
        }
      } else {
        UnderItems(path + [Elem], node, path, defs);
      }
    } else {
      assert path[|path|..] == [];
    }
  }

  lemma UnderItems(leaf: Path, node: Node, path: Path, defs: Defs)
    requires node.ref.None? && node.kind == "array" && node.items.Some?
    requires leaf == path + [Elem] || Under(leaf, node.items.value, path + [Elem], defs)
    ensures Under(leaf, node, path, defs)
  {
    StepBack(leaf, path, Elem);
  }

  lemma UnderProperty(leaf: Path, node: Node, i: nat, path: Path, defs: Defs)
    requires node.ref.None? && i < |node.props|
    requires Under(leaf, node.props[i].node, path + [Key(node.props[i].name)], defs)
    ensures Under(leaf, node, path, defs)
  {
    var p := node.props[i];
    StepBack(leaf, path, Key(p.name));
    var rest := leaf[|path|..];
    assert Goal(node, defs).value.props[i] == p && RealPath(p.node, rest[1..], defs);
  }

  lemma StepBack(leaf: Path, path: Path, step: Step)
    requires path + [step] <= leaf
    ensures path <= leaf && leaf[|path|..] != []
    ensures leaf[|path|..][0] == step && leaf[|path|..][1..] == leaf[|path + [step]|..]
  {
    assert leaf[|path|] == (path + [step])[|path|];
  }

  lemma {:induction false} PropsAreReal(node: Node, from: nat, path: Path, stack: seq<string>, found: Found, defs: Defs)
    requires node.ref.None? && from <= |node.props| && WalkProps(node.props[from..], path, stack, found, defs).Ended?
    ensures Appends(found, WalkProps(node.props[from..], path, stack, found, defs).value, node, path, defs)
    decreases |Fresh(defs, stack)|, node, 0, |node.props| - from
  {
    if from < |node.props| {
      var p := node.props[from];
      assert node.props[from..][0] == p && node.props[from..][1..] == node.props[from + 1..];
      var below := path + [Key(p.name)];
      var next := Walk(p.node, below, stack, found, defs).value;
      WalkIsReal(p.node, below, stack, found, defs);
      forall i | |found.leaves| <= i < |next.leaves| ensures Under(next.leaves[i], node, path, defs) {
        UnderProperty(next.leaves[i], node, from, path, defs);
      }
      PropsAreReal(node, from + 1, path, stack, next, defs);
      var after := WalkProps(node.props[from + 1..], path, stack, next, defs).value;
      assert forall i :: |found.leaves| <= i < |next.leaves| ==> after.leaves[i] == next.leaves[i];
    }
  }

  /** Every leaf the gate lists is a real path of the schema, cyclic or not. */
  lemma LeavesAreReal(schema: Node, defs: Defs, leaf: Path)
    requires SchemaLeaves(schema, defs).Ended? && leaf in SchemaLeaves(schema, defs).value
    ensures RealPath(schema, leaf, defs)
  {
    var root := Goal(schema, defs).value;
    ExpandIsReal(root, [], [], Found([], map[]), defs);
    var leaves := SchemaLeaves(schema, defs).value;
    var i :| 0 <= i < |leaves| && leaves[i] == leaf;
    assert Under(leaf, root, [], defs);
    assert leaf[0..] == leaf;
    SameTarget(schema, root, leaf, defs);
  }
}
