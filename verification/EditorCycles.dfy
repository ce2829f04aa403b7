/** When does the form generator end? `describe` cuts a property whose reference it
    is already inside, but never records the reference of a list item, so a cycle
    that passes only through inline nodes and list items is followed for ever. */
module EditorCycles {
  import opened Text
  import opened Sets
  import opened Schema
  import opened LeafWalk
  import opened EditorForm

  /** The properties `describe` goes on to for a node. */
  function Kids(node: Node, defs: Defs): seq<Property> {
    match Goal(node, defs)
    case Ended(target) =>
      if target.hasEnum then []
      else if target.kind == "array" then
        match Goal(ItemsOf(target), defs)
        case Ended(item) => item.props
        case _ => []
      else target.props
    case _ => []
  }

  predicate IsKid(kid: Node, node: Node, defs: Defs) {
    exists i :: 0 <= i < |Kids(node, defs)| && Kids(node, defs)[i].node == kid
  }

  predicate Trail(trail: seq<Node>, defs: Defs) {
    trail != [] && forall i :: 0 <= i < |trail| - 1 ==> IsKid(trail[i + 1], trail[i], defs)
  }

  predicate Inline(nodes: seq<Node>) {
    forall i :: 0 <= i < |nodes| ==> nodes[i].ref.None?
  }

  /** A way from one node to another through inline nodes alone. Since an inline node
      is smaller than the one it is written in, a way back to the start passes a list
      item's reference. */
  ghost predicate InlineWay(from: Node, to: Node, defs: Defs) {
    exists way :: Trail(way, defs) && Inline(way) && |way| >= 2 && way[0] == from && way[|way| - 1] == to
  }

  /** Some node below comes back to itself through inline nodes and list items. */
  ghost predicate Endless(node: Node, defs: Defs) {
    exists trail :: Trail(trail, defs) && trail[0] == node && InlineWay(trail[|trail| - 1], trail[|trail| - 1], defs)
  }

  // ---------------------------------------------------------------------------
  // One call

  lemma KidsResolve(node: Node, defs: Defs)
    requires Closed(defs) && AllResolve(node, defs)
    ensures forall i :: 0 <= i < |Kids(node, defs)| ==> AllResolve(Kids(node, defs)[i].node, defs)
  {
    var target := Target(node, defs);
    if !target.hasEnum && target.kind == "array" {
      var item := Target(ItemsOf(target), defs);
    }
  }

  predicate Cut(node: Node, stack: seq<string>) {
    node.ref.Some? && node.ref.value in stack
  }

  /** Unless it is cut, a node is finished exactly when its kids are. */
  lemma Unfolds(fuel: nat, name: string, node: Node, stack: seq<string>, defs: Defs)
    requires Closed(defs) && AllResolve(node, defs) && fuel > 0
    ensures var described := DescribeIn(fuel, name, node, stack, defs);
            var below := ChildrenIn(fuel - 1, Kids(node, defs), Push(node, stack), defs);
            if Cut(node, stack) then described.Ended?
            else described.Ended? == below.Ended? && described.Raised? == below.Raised?
  {
    var target := Target(node, defs);
    if !target.hasEnum && target.kind == "array" {
      var item := Target(ItemsOf(target), defs);
    }
  }

  /** Where every reference resolves nothing is raised. */
  lemma {:induction false} NothingRaised(fuel: nat, name: string, node: Node, stack: seq<string>, defs: Defs)
    requires Closed(defs) && AllResolve(node, defs)
    ensures !DescribeIn(fuel, name, node, stack, defs).Raised?
    decreases fuel, 0, 0
  {
    if fuel > 0 {
      Unfolds(fuel, name, node, stack, defs);
      KidsResolve(node, defs);
      hide DescribeIn, Kids;
      SomeUnfinished(fuel - 1, Kids(node, defs), Push(node, stack), defs);
    }
  }

  lemma {:induction false} SomeUnfinished(fuel: nat, props: seq<Property>, stack: seq<string>, defs: Defs)
    requires Closed(defs) && forall i :: 0 <= i < |props| ==> AllResolve(props[i].node, defs)
    ensures !ChildrenIn(fuel, props, stack, defs).Raised?
    ensures ChildrenIn(fuel, props, stack, defs).Unfinished? <==>
            exists i :: 0 <= i < |props| && DescribeIn(fuel, props[i].name, props[i].node, stack, defs).Unfinished?
    decreases fuel, 1, |props|
  {
    hide DescribeIn;
    if props != [] {
      NothingRaised(fuel, props[0].name, props[0].node, stack, defs);
      SomeUnfinished(fuel, props[1..], stack, defs);
      if i :| 0 <= i < |props| && DescribeIn(fuel, props[i].name, props[i].node, stack, defs).Unfinished? {
        assert i > 0 ==> props[1..][i - 1] == props[i];
      }
      if j :| 0 <= j < |props[1..]| && DescribeIn(fuel, props[1..][j].name, props[1..][j].node, stack, defs).Unfinished? {
        assert props[j + 1] == props[1..][j];
      }
    }
  }

  /** Under any name, the node is not finished within this fuel. */
  ghost predicate Stuck(fuel: nat, node: Node, stack: seq<string>, defs: Defs) {
    forall name :: DescribeIn(fuel, name, node, stack, defs).Unfinished?
  }

  lemma StuckKid(fuel: nat, node: Node, stack: seq<string>, defs: Defs, kid: Node)
    requires Closed(defs) && AllResolve(node, defs) && !Cut(node, stack) && IsKid(kid, node, defs)
    requires Stuck(fuel, kid, Push(node, stack), defs)
    ensures Stuck(fuel + 1, node, stack, defs)
  {
    hide DescribeIn, Kids, AllResolve;
    var i :| 0 <= i < |Kids(node, defs)| && Kids(node, defs)[i].node == kid;
    KidsResolve(node, defs);
    SomeUnfinished(fuel, Kids(node, defs), Push(node, stack), defs);
    assert DescribeIn(fuel, Kids(node, defs)[i].name, kid, Push(node, stack), defs).Unfinished?;
    var more := fuel + 1;
    forall name ensures DescribeIn(more, name, node, stack, defs).Unfinished? {
      Unfolds(more, name, node, stack, defs);
      NothingRaised(more, name, node, stack, defs);
    }
  }

  lemma NoFuel(node: Node, stack: seq<string>, defs: Defs)
    ensures Stuck(0, node, stack, defs)
  {
  }

  // ---------------------------------------------------------------------------
  // A cycle through inline nodes is followed for ever

  lemma {:induction false} TrailResolves(trail: seq<Node>, i: nat, defs: Defs)
    requires Closed(defs) && Trail(trail, defs) && AllResolve(trail[0], defs) && i < |trail|
    ensures AllResolve(trail[i], defs)
    decreases i
  {
    if i > 0 {
      TrailResolves(trail, i - 1, defs);
      KidsResolve(trail[i - 1], defs);
      assert IsKid(trail[i - 1 + 1], trail[i - 1], defs);
    }
  }

  lemma {:induction false} LoopNeverEnds(fuel: nat, way: seq<Node>, i: nat, stack: seq<string>, defs: Defs)
    requires Closed(defs) && Trail(way, defs) && Inline(way) && way[0] == way[|way| - 1] && i < |way| - 1
    requires AllResolve(way[0], defs)
    ensures Stuck(fuel, way[i], stack, defs)
    decreases fuel
  {
    hide Stuck, AllResolve;
    if fuel == 0 {
      NoFuel(way[i], stack, defs);
    } else {
      TrailResolves(way, i, defs);
      var next := if i + 1 == |way| - 1 then 0 else i + 1;
      assert IsKid(way[i + 1], way[i], defs) && way[next] == way[i + 1];
      LoopNeverEnds(fuel - 1, way, next, Push(way[i], stack), defs);
      StuckKid(fuel - 1, way[i], stack, defs, way[i + 1]);
    }
  }

  /** No reference of the trail comes up twice, or is on the stack. */
  predicate Uncut(trail: seq<Node>, stack: seq<string>) {
    && (forall i :: 0 <= i < |trail| ==> !Cut(trail[i], stack))
    && (forall i, j :: 0 <= i < j < |trail| && trail[i].ref.Some? ==> trail[i].ref != trail[j].ref)
  }

  lemma {:induction false} TrailNeverEnds(fuel: nat, trail: seq<Node>, stack: seq<string>, defs: Defs)
    requires Closed(defs) && Trail(trail, defs) && AllResolve(trail[0], defs) && Uncut(trail, stack)
    requires InlineWay(trail[|trail| - 1], trail[|trail| - 1], defs)
    ensures Stuck(fuel, trail[0], stack, defs)
    decreases |trail|
  {
    hide AllResolve, Stuck, Uncut, Push, IsKid, Closed;
    if |trail| == 1 {
      var way :| Trail(way, defs) && Inline(way) && |way| >= 2 && way[0] == trail[0] && way[|way| - 1] == trail[0];
      LoopNeverEnds(fuel, way, 0, stack, defs);
    } else if fuel == 0 {
      NoFuel(trail[0], stack, defs);
    } else {
      var rest, inner := trail[1..], Push(trail[0], stack);
      TailGoesOn(trail, stack, defs);
      TrailResolves(trail, 1, defs);
      TrailNeverEnds(fuel - 1, rest, inner, defs);
      StuckKid(fuel - 1, trail[0], stack, defs, rest[0]);
    }
  }

  lemma TailGoesOn(trail: seq<Node>, stack: seq<string>, defs: Defs)
    requires Trail(trail, defs) && |trail| > 1 && Uncut(trail, stack)
    ensures Trail(trail[1..], defs) && Uncut(trail[1..], Push(trail[0], stack))
    ensures !Cut(trail[0], stack) && IsKid(trail[1], trail[0], defs)
  {
    hide IsKid;
    var rest := trail[1..];
    assert forall i :: 0 <= i < |rest| ==> rest[i] == trail[i + 1];
    forall i | 0 <= i < |rest| - 1 ensures IsKid(rest[i + 1], rest[i], defs) {
      var at := i + 1;
      assert IsKid(trail[at + 1], trail[at], defs);
    }
    assert IsKid(trail[0 + 1], trail[0], defs);
  }

  /** A trail to an inline node can avoid meeting a reference twice. */
  lemma {:induction false} Shorten(trail: seq<Node>, defs: Defs) returns (simple: seq<Node>)
    requires Trail(trail, defs) && trail[|trail| - 1].ref.None?
    ensures Trail(simple, defs) && simple[0] == trail[0] && simple[|simple| - 1] == trail[|trail| - 1]
    ensures Uncut(simple, [])
    decreases |trail|
  {
    if i, j :| 0 <= i < j < |trail| && trail[i].ref.Some? && trail[i].ref == trail[j].ref {
      var spliced := trail[..i + 1] + trail[j + 1..];
      SameReferenceSameKids(trail[i], trail[j], defs);
      forall k | 0 <= k < |spliced| - 1 ensures IsKid(spliced[k + 1], spliced[k], defs) {
        var at := if k <= i then k else k - i + j;
        if k == i {
          assert IsKid(trail[j + 1], trail[j], defs);
        } else {
          assert IsKid(trail[at + 1], trail[at], defs);
        }
      }
      simple := Shorten(spliced, defs);
    } else {
      simple := trail;
    }
  }

  lemma SameReferenceSameKids(a: Node, b: Node, defs: Defs)
    requires a.ref.Some? && a.ref == b.ref
    ensures Kids(a, defs) == Kids(b, defs)
    ensures forall kid :: IsKid(kid, a, defs) == IsKid(kid, b, defs)
  {
    assert Kids(a, defs) == Kids(b, defs);
  }

  // ---------------------------------------------------------------------------
  // Without one the recursion ends

  /** All nodes written in a node. */
  function Within(node: Node): set<Node>
    decreases node, 1
  {
    {node} + (if node.items.Some? then Within(node.items.value) else {}) + WithinProps(node.props)
  }

  function WithinProps(props: seq<Property>): set<Node>
    decreases props, 0
  {
    if props == [] then {} else Within(props[0].node) + WithinProps(props[1..])
  }

  /** Holds with each node everything written in it, and the definitions. */
  predicate Complete(all: set<Node>, defs: Defs) {
    && (forall n :: n in all ==> forall i :: 0 <= i < |n.props| ==> n.props[i].node in all)
    && (forall n :: n in all && n.items.Some? ==> n.items.value in all)
    && (forall d :: d in defs ==> defs[d] in all)
  }

  lemma {:induction false} WithinIsClosed(node: Node, n: Node)
    requires n in Within(node)
    ensures Within(n) <= Within(node)
    decreases node, 1
  {
    if n != node {
      if node.items.Some? && n in Within(node.items.value) {
        WithinIsClosed(node.items.value, n);
      } else {
        WithinPropsIsClosed(node.props, n);
      }
    }
  }

  lemma {:induction false} WithinPropsIsClosed(props: seq<Property>, n: Node)
    requires n in WithinProps(props)
    ensures Within(n) <= WithinProps(props)
    decreases props, 0
  {
    if n in Within(props[0].node) {
      WithinIsClosed(props[0].node, n);
    } else {
      WithinPropsIsClosed(props[1..], n);
    }
  }

  lemma {:induction false} WithinPropsHolds(props: seq<Property>, i: nat)
    requires i < |props|
    ensures props[i].node in WithinProps(props)
  {
    if i > 0 {
      WithinPropsHolds(props[1..], i - 1);
    }
  }

  ghost function Everything(node: Node, defs: Defs): set<Node> {
    Within(node) + set d, n | d in defs && n in Within(defs[d]) :: n
  }

  lemma EverythingIsComplete(node: Node, defs: Defs)
    ensures node in Everything(node, defs) && Complete(Everything(node, defs), defs)
  {
    hide WithinProps;
    var all := Everything(node, defs);
    forall d | d in defs ensures defs[d] in all {
      assert defs[d] in Within(defs[d]);
    }
    forall n | n in all
      ensures forall i :: 0 <= i < |n.props| ==> n.props[i].node in all
      ensures n.items.Some? ==> n.items.value in all
    {
      var root :| n in Within(root) && (root == node || exists d :: d in defs && defs[d] == root);
      WithinIsClosed(root, n);
      forall i | 0 <= i < |n.props| ensures n.props[i].node in all {
        WithinPropsHolds(n.props, i);
        assert n.props[i].node in Within(n);
      }
      if n.items.Some? {
        assert n.items.value in Within(n.items.value);
        assert n.items.value in Within(n);
      }
    }
  }

  lemma {:induction false} ResolvedWithin(node: Node, defs: Defs, seen: set<string>, all: set<Node>)
    requires Complete(all, defs) && node in all && ResolveFrom(node, defs, seen).Resolved?
    ensures ResolveFrom(node, defs, seen).node in all
    decreases |defs.Keys - seen|
  {
    match node.ref
    case None =>
    case Some(name) =>
      assert name in defs.Keys - seen;
      SubsetSmaller(defs.Keys - (seen + {name}), defs.Keys - seen);
      ResolvedWithin(defs[name], defs, seen + {name}, all);
  }

  lemma KidsWithin(node: Node, defs: Defs, all: set<Node>)
    requires Complete(all, defs) && node in all
    ensures forall i :: 0 <= i < |Kids(node, defs)| ==> Kids(node, defs)[i].node in all
  {
    if Goal(node, defs).Ended? {
      ResolvedWithin(node, defs, {}, all);
      var target := Goal(node, defs).value;
      if target.kind == "array" && target.items.Some? && Goal(target.items.value, defs).Ended? {
        ResolvedWithin(target.items.value, defs, {}, all);
      }
    }
  }

  lemma EndlessKid(kid: Node, node: Node, defs: Defs)
    requires IsKid(kid, node, defs) && Endless(kid, defs)
    ensures Endless(node, defs)
  {
    var trail :| Trail(trail, defs) && trail[0] == kid && InlineWay(trail[|trail| - 1], trail[|trail| - 1], defs);
    var longer := [node] + trail;
    forall i | 0 <= i < |longer| - 1 ensures IsKid(longer[i + 1], longer[i], defs) {
      if i > 0 {
        assert IsKid(trail[i - 1 + 1], trail[i - 1], defs);
      }
    }
    assert longer[|longer| - 1] == trail[|trail| - 1];
  }

  lemma LoopIsEndless(node: Node, defs: Defs)
    requires InlineWay(node, node, defs)
    ensures Endless(node, defs)
  {
    assert Trail([node], defs);
  }

  lemma WayGoesOn(from: Node, node: Node, kid: Node, defs: Defs)
    requires IsKid(kid, node, defs) && node.ref.None? && kid.ref.None? && (from == node || InlineWay(from, node, defs))
    ensures InlineWay(from, kid, defs)
  {
    var way := [node];
    if from != node {
      way :| Trail(way, defs) && Inline(way) && |way| >= 2 && way[0] == from && way[|way| - 1] == node;
    }
    var longer := way + [kid];
    forall i | 0 <= i < |longer| - 1 ensures IsKid(longer[i + 1], longer[i], defs) {
      if i < |way| - 1 {
        assert IsKid(way[i + 1], way[i], defs);
      }
    }
    assert Trail(longer, defs) && Inline(longer) && longer[0] == from && longer[|longer| - 1] == kid;
  }

  /** What is known on the way down: `run` are the inline nodes since the last
      reference. */
  ghost predicate OnTheWay(node: Node, run: set<Node>, all: set<Node>, defs: Defs) {
    && AllResolve(node, defs) && node in all && run <= all && !Endless(node, defs)
    && (node.ref.None? ==> forall c :: c in run ==> InlineWay(c, node, defs))
  }

  lemma {:induction false} Ends(name: string, node: Node, stack: seq<string>, run: set<Node>, all: set<Node>, defs: Defs)
    returns (fuel: nat)
    requires Closed(defs) && Complete(all, defs) && OnTheWay(node, run, all, defs)
    ensures DescribeIn(fuel, name, node, stack, defs).Ended?
    decreases |Fresh(defs, stack)|, |all - run|, 0, 0
  {
    hide DescribeIn, Kids, AllResolve, Complete, Closed, Endless, InlineWay;
    var inner := Push(node, stack);
    var below := 0;
    if !Cut(node, stack) {
      var shorter := if node.ref.Some? then {} else run + {node};
      if node.ref.Some? {
        ReferenceIsDefined(node, defs);
        FreshShrinks(defs, stack, node.ref.value);
      } else {
        if node in run {
          LoopIsEndless(node, defs);
        }
        assert node in all - run;
        SubsetSmaller(all - shorter, all - run);
      }
      KidsOnTheWay(node, run, shorter, all, defs);
      below := KidsEnd(Kids(node, defs), 0, inner, shorter, all, defs);
      assert Kids(node, defs)[0..] == Kids(node, defs);
    }
    fuel := below + 1;
    Unfolds(fuel, name, node, stack, defs);
  }

  lemma ReferenceIsDefined(node: Node, defs: Defs)
    requires AllResolve(node, defs) && node.ref.Some?
    ensures node.ref.value in defs
  {
  }

  lemma KidsOnTheWay(node: Node, run: set<Node>, shorter: set<Node>, all: set<Node>, defs: Defs)
    requires Closed(defs) && Complete(all, defs) && OnTheWay(node, run, all, defs)
    requires shorter == if node.ref.Some? then {} else run + {node}
    ensures forall i :: 0 <= i < |Kids(node, defs)| ==> OnTheWay(Kids(node, defs)[i].node, shorter, all, defs)
  {
    hide Kids, AllResolve, Complete, Endless, InlineWay;
    KidsResolve(node, defs);
    KidsWithin(node, defs, all);
    forall i | 0 <= i < |Kids(node, defs)| ensures OnTheWay(Kids(node, defs)[i].node, shorter, all, defs) {
      var kid := Kids(node, defs)[i].node;
      assert IsKid(kid, node, defs);
      if Endless(kid, defs) {
        EndlessKid(kid, node, defs);
      }
      if kid.ref.None? {
        forall c | c in shorter ensures InlineWay(c, kid, defs) {
          WayGoesOn(c, node, kid, defs);
        }
      }
    }
  }

  lemma {:induction false} KidsEnd(
    props: seq<Property>, from: nat, stack: seq<string>, run: set<Node>, all: set<Node>, defs: Defs)
    returns (fuel: nat)
    requires Closed(defs) && Complete(all, defs) && from <= |props|
    requires forall i :: 0 <= i < |props| ==> OnTheWay(props[i].node, run, all, defs)
    ensures ChildrenIn(fuel, props[from..], stack, defs).Ended?
    decreases |Fresh(defs, stack)|, |all - run|, 1, |props| - from
  {
    hide DescribeIn, OnTheWay, Complete, Closed;
    fuel := 0;
    if from < |props| {
      var p := props[from];
      assert props[from..][0] == p && props[from..][1..] == props[from + 1..];
      var own := Ends(p.name, p.node, stack, run, all, defs);
      var rest := KidsEnd(props, from + 1, stack, run, all, defs);
      fuel := own + rest;
      FuelIsEnough(own, fuel, p.name, p.node, stack, defs);
      FuelIsEnoughBelow(rest, fuel, props[from + 1..], stack, defs);
    }
  }

  // ---------------------------------------------------------------------------
  // Exactly when

  /** The call `describe(name, node, defs, ())` returns. */
  ghost predicate Finishes(name: string, node: Node, defs: Defs) {
    exists fuel: nat :: DescribeIn(fuel, name, node, [], defs).Ended?
  }

  /** Where every reference resolves, `describe` ends exactly when no node below comes
      back to itself through inline nodes and list items alone. A cycle with a property
      reference on it is cut. */
  lemma DescribeEndsExactlyWhen(name: string, node: Node, defs: Defs)
    requires Closed(defs) && AllResolve(node, defs)
    ensures Finishes(name, node, defs) <==> !Endless(node, defs)
  {
    hide AllResolve, DescribeIn, Closed;
    if Endless(node, defs) {
      var trail :| Trail(trail, defs) && trail[0] == node && InlineWay(trail[|trail| - 1], trail[|trail| - 1], defs);
      var simple := Shorten(trail, defs);
      forall fuel: nat ensures DescribeIn(fuel, name, node, [], defs).Unfinished? {
        TrailNeverEnds(fuel, simple, [], defs);
      }
    } else {
      EverythingIsComplete(node, defs);
      var fuel := Ends(name, node, [], {}, Everything(node, defs), defs);
    }
  }

  /** No generated property is endless. */
  ghost predicate AllFinite(props: seq<Property>, defs: Defs) {
    forall i :: 0 <= i < |props| && !HandBound(props[i].name) ==> !Endless(props[i].node, defs)
  }

  ghost predicate ManifestEnds(props: seq<Property>, defs: Defs) {
    exists fuel: nat :: GeneratedIn(fuel, props, defs).Ended?
  }

  /** The whole manifest ends exactly when each generated property does. */
  lemma {:induction false} ManifestEndsExactlyWhen(props: seq<Property>, defs: Defs)
    requires Closed(defs) && forall i :: 0 <= i < |props| ==> AllResolve(props[i].node, defs)
    ensures ManifestEnds(props, defs) <==> AllFinite(props, defs)
    decreases |props|
  {
    hide DescribeIn, HandBound, Endless, AllResolve, Closed;
    if props == [] {
      assert GeneratedIn(0, props, defs).Ended?;
    } else {
      var front, last := props[..|props| - 1], props[|props| - 1];
      assert forall i :: 0 <= i < |front| ==> props[i] == front[i];
      assert AllFinite(props, defs) <==> AllFinite(front, defs) && (HandBound(last.name) || !Endless(last.node, defs));
      ManifestEndsExactlyWhen(front, defs);
      DescribeEndsExactlyWhen(last.name, last.node, defs);
      if ManifestEnds(props, defs) {
        var fuel: nat :| GeneratedIn(fuel, props, defs).Ended?;
        assert GeneratedIn(fuel, front, defs).Ended?;
        assert HandBound(last.name) || DescribeIn(fuel, last.name, last.node, [], defs).Ended?;
        assert HandBound(last.name) || Finishes(last.name, last.node, defs);
      } else if AllFinite(props, defs) {
        LastEnds(props, front, last, defs);
      }
    }
  }

  lemma LastEnds(props: seq<Property>, front: seq<Property>, last: Property, defs: Defs)
    requires props != [] && front == props[..|props| - 1] && last == props[|props| - 1]
    requires ManifestEnds(front, defs)
    requires HandBound(last.name) || Finishes(last.name, last.node, defs)
    ensures ManifestEnds(props, defs)
  {
    hide DescribeIn, HandBound;
    var before: nat :| GeneratedIn(before, front, defs).Ended?;
    if HandBound(last.name) {
      assert GeneratedIn(before, props, defs).Ended?;
    } else {
      var own: nat :| DescribeIn(own, last.name, last.node, [], defs).Ended?;
      FuelIsEnoughForAll(before, before + own, front, defs);
      FuelIsEnough(own, before + own, last.name, last.node, [], defs);
      assert GeneratedIn(before + own, props, defs).Ended?;
    }
  }

  // ---------------------------------------------------------------------------
  // One schema of each kind

  const TREE := Node(None, "array", [], Some(RefTo("Tree")), false)

  /** A definition that lists itself. */
  function ListCycle(): Defs {
    map["Tree" := Node(None, "object", [Property("kids", TREE)], None, false)]
  }

  /** A definition with itself as a property. */
  function PropertyCycle(): Defs {
    map["Chain" := Node(None, "object", [Property("next", RefTo("Chain"))], None, false)]
  }

  lemma ListCycleResolves()
    ensures var defs := ListCycle();
            && Goal(RefTo("Tree"), defs) == Ended(defs["Tree"])
            && Closed(defs) && AllResolve(RefTo("Tree"), defs)
  {
    var defs := ListCycle();
    var body := defs["Tree"];
    assert ResolveFrom(body, defs, {"Tree"}) == Resolved(body);
    assert AllResolve(RefTo("Tree"), defs);
    assert AllResolve(TREE, defs);
    assert AllResolve(body, defs);
  }

  lemma ListCycleKids()
    ensures var defs := ListCycle(); IsKid(TREE, RefTo("Tree"), defs) && IsKid(TREE, TREE, defs)
  {
    ListCycleResolves();
    var defs := ListCycle();
    hide Goal, Closed, AllResolve;
    assert defs["Tree"].props[0].node == TREE;
    assert Kids(RefTo("Tree"), defs) == defs["Tree"].props && Kids(TREE, defs) == defs["Tree"].props;
  }

  lemma ListCycleNeverEnds(fuel: nat)
    ensures DescribeIn(fuel, "root", RefTo("Tree"), [], ListCycle()).Unfinished?
  {
    hide DescribeIn, IsKid, AllResolve, Closed, ListCycle;
    var defs := ListCycle();
    ListCycleResolves();
    ListCycleKids();
    var way, trail := [TREE, TREE], [RefTo("Tree"), TREE];
    assert Trail(way, defs) && Inline(way) && way[0] == TREE && way[|way| - 1] == TREE;
    assert Trail(trail, defs) && Uncut(trail, []);
    TrailNeverEnds(fuel, trail, [], defs);
  }

  lemma PropertyCycleIsCut(name: string)
    ensures DescribeIn(2, name, RefTo("Chain"), [], PropertyCycle()) == Ended(Some(Field(name, Object, [])))
  {
    var defs := PropertyCycle();
    var body := defs["Chain"];
    var stack := Push(RefTo("Chain"), []);
    assert ResolveFrom(body, defs, {"Chain"}) == Resolved(body);
    assert Goal(RefTo("Chain"), defs) == Ended(body);
    assert "Chain" in stack by { assert stack[0] == "Chain"; }
    assert DescribeIn(1, "next", RefTo("Chain"), stack, defs) == Ended(None);
    assert body.props[1..] == [];
    assert body.props[0] == Property("next", RefTo("Chain"));
    assert ChildrenIn(1, body.props[1..], stack, defs) == Ended([]);
    assert Listed(None) + [] == [];
    assert ChildrenIn(1, body.props, stack, defs) == Ended([]);
  }

  /** On that schema the walks part: the gate lists the path at which it stops, for
      which the generator has no field. */
  lemma CutPropertyIsOnlyListed()
    ensures var defs := PropertyCycle();
            var next := DescribeIn(2, "next", RefTo("Chain"), [], defs);
            && SchemaLeaves(RefTo("Chain"), defs) == Ended([[Key("next"), Key("next")]])
            && next.Ended? && next.value.Some? && FieldPaths(next.value.value, [Key("next")]) == []
  {
    var defs := PropertyCycle();
    var body, ref := defs["Chain"], RefTo("Chain");
    var once, twice := [Key("next")], [Key("next"), Key("next")];
    var found := Found([], map[]);
    var entered := Record(found, "Chain", once);
    assert ResolveFrom(body, defs, {"Chain"}) == Resolved(body);
    assert Goal(ref, defs) == Ended(body);
    assert body.props[0] == Property("next", ref) && body.props[1..] == [];
    assert once + [Key("next")] == twice && [] + [Key("next")] == once && [] + ["Chain"] == ["Chain"];
    assert Walk(ref, twice, ["Chain"], entered, defs) == Ended(Leaf(entered, twice));
    assert WalkProps([], once, ["Chain"], Leaf(entered, twice), defs) == Ended(Leaf(entered, twice));
    assert WalkProps(body.props, once, ["Chain"], entered, defs) == Ended(Leaf(entered, twice));
    assert Walk(ref, once, [], found, defs) == Ended(Leaf(entered, twice));
    assert WalkProps([], [], [], Leaf(entered, twice), defs) == Ended(Leaf(entered, twice));
    assert WalkProps(body.props, [], [], found, defs) == Ended(Leaf(entered, twice));
    assert [] + [twice] == [twice];
    PropertyCycleIsCut("next");
  }
}
