/** JSON Schema documents as the two schema scripts see them: definitions, `$ref`
    nodes, properties, array items. Definition names stand for the
    `#/$defs/NAME` references of the generated schema. */
module Schema {
  import opened Text
  import opened Sets

  datatype Node = Node(
    ref: Option<string>, kind: string, props: seq<Property>, items: Option<Node>, hasEnum: bool)

  datatype Property = Property(name: string, node: Node)

  /** `{"$ref": "#/$defs/NAME"}` */
  function RefTo(name: string): Node {
    Node(Some(name), "", [], None, false)
  }

  type Defs = map<string, Node>

  /** A field path: property names and list elements. */
  datatype Step = Key(name: string) | Elem

  type Path = seq<Step>

  /** What a recursive script does with a schema: return, raise `KeyError` at a
      reference without a definition, or still be at work. */
  datatype Attempt<+T> = Ended(value: T) | Raised | Unfinished {
    predicate IsFailure() { !Ended? }

    function PropagateFailure<U>(): Attempt<U>
      requires IsFailure()
    {
      if Raised? then Raised else Unfinished
    }

    function Extract(): T
      requires Ended?
    {
      value
    }
  }

  // ---------------------------------------------------------------------------
  // Following references

  /** `AliasLoop` is where the scripts' `while "$ref" in node` never ends. */
  datatype Resolution = Resolved(node: Node) | MissingDefinition | AliasLoop

  function ResolveFrom(node: Node, defs: Defs, seen: set<string>): (r: Resolution)
    ensures r.Resolved? ==> r.node.ref.None? && (node.ref.Some? ==> node.ref.value in defs)
    ensures node.ref.None? ==> r == Resolved(node)
    decreases |defs.Keys - seen|
  {
    match node.ref
    case None => Resolved(node)
    case Some(name) =>
      if name !in defs then MissingDefinition
      else if name in seen then AliasLoop
      else
        assert defs.Keys - (seen + {name}) < defs.Keys - seen by {
          assert name in defs.Keys - seen;
        }
        SubsetSmaller(defs.Keys - (seen + {name}), defs.Keys - seen);
        ResolveFrom(defs[name], defs, seen + {name})
  }

  function Resolve(node: Node, defs: Defs): (r: Resolution)
    ensures r.Resolved? ==> r.node.ref.None? && (node.ref.Some? ==> node.ref.value in defs)
    ensures node.ref.None? ==> r == Resolved(node)
  {
    ResolveFrom(node, defs, {})
  }

  /** The node the scripts go on with after resolving. */
  function Goal(node: Node, defs: Defs): (r: Attempt<Node>)
    ensures r.Ended? ==> r.value.ref.None? && (node.ref.Some? ==> node.ref.value in defs)
    ensures node.ref.None? ==> r == Ended(node)
  {
    match Resolve(node, defs)
    case Resolved(target) => Ended(target)
    case MissingDefinition => Raised
    case AliasLoop => Unfinished
  }

  /** `_resolve` and `resolve`: both scripts run this loop. */
  method FollowReferences(start: Node, defs: Defs) returns (r: Attempt<Node>)
    requires !Goal(start, defs).Unfinished?
    ensures r == Goal(start, defs)
  {
    var node := start;
    ghost var seen: set<string> := {};
    while node.ref.Some?
      invariant ResolveFrom(node, defs, seen) == Resolve(start, defs)
      decreases |defs.Keys - seen|
    {
      var name := node.ref.value;
      if name !in defs {
        return Raised;
      }
      assert name in defs.Keys - seen;
      SubsetSmaller(defs.Keys - (seen + {name}), defs.Keys - seen);
      seen := seen + {name};
      node := defs[name];
    }
    r := Ended(node);
  }

  /** The node after `k` references, as long as each is defined. */
  function Hop(node: Node, k: nat, defs: Defs): Option<Node>
    decreases k
  {
    if k == 0 then Some(node)
    else if node.ref.Some? && node.ref.value in defs then Hop(defs[node.ref.value], k - 1, defs)
    else None
  }

  /** The loop is still at a reference after `k` rounds. */
  predicate AtReference(node: Node, k: nat, defs: Defs) {
    Hop(node, k, defs).Some? && Hop(node, k, defs).value.ref.Some? && Hop(node, k, defs).value.ref.value in defs
  }

  lemma {:induction false} HopOn(node: Node, j: nat, k: nat, defs: Defs)
    requires Hop(node, j, defs).Some?
    ensures Hop(node, j + k, defs) == Hop(Hop(node, j, defs).value, k, defs)
    decreases j
  {
    if j > 0 {
      HopOn(defs[node.ref.value], j - 1, k, defs);
    }
  }

  lemma {:induction false} HopBefore(node: Node, k: nat, j: nat, defs: Defs)
    requires k < j && Hop(node, j, defs).Some?
    ensures AtReference(node, k, defs)
    decreases k
  {
    if k > 0 {
      HopBefore(defs[node.ref.value], k - 1, j - 1, defs);
    }
  }

  /** A name met again after a reference is met for ever. */
  lemma {:induction false} CycleNeverEnds(node: Node, j: nat, k: nat, defs: Defs)
    requires AtReference(node, 0, defs) && j > 0 && AtReference(node, j, defs)
    requires Hop(node, j, defs).value.ref == node.ref
    ensures AtReference(node, k, defs)
    decreases k
  {
    if k < j {
      HopBefore(node, k, j, defs);
    } else {
      CycleNeverEnds(node, j, k - j, defs);
      var again := Hop(node, j, defs).value;
      HopOn(node, j, k - j, defs);
      SameReferenceSameHops(node, again, k - j, defs);
    }
  }

  lemma SameReferenceSameHops(a: Node, b: Node, k: nat, defs: Defs)
    requires a.ref == b.ref && AtReference(a, k, defs) && AtReference(b, 0, defs)
    ensures AtReference(b, k, defs)
  {
  }

  /** References reached from `node` come back to a name. */
  ghost predicate AliasCycle(node: Node, defs: Defs) {
    exists i: nat, j: nat :: i < j && AtReference(node, i, defs) && AtReference(node, j, defs)
      && Hop(node, i, defs).value.ref == Hop(node, j, defs).value.ref
  }

  lemma {:induction false} ResolutionIsLast(node: Node, defs: Defs, seen: set<string>) returns (k: nat)
    requires !ResolveFrom(node, defs, seen).AliasLoop?
    ensures !AtReference(node, k, defs)
    decreases |defs.Keys - seen|
  {
    k := 0;
    if node.ref.Some? && node.ref.value in defs {
      var name := node.ref.value;
      assert name in defs.Keys - seen;
      SubsetSmaller(defs.Keys - (seen + {name}), defs.Keys - seen);
      var rest := ResolutionIsLast(defs[name], defs, seen + {name});
      k := rest + 1;
    }
  }

  /** `seen` holds the names met on the way from `start`. */
  lemma {:induction false} LoopHasCycle(start: Node, k: nat, defs: Defs, seen: set<string>)
    requires Hop(start, k, defs).Some? && ResolveFrom(Hop(start, k, defs).value, defs, seen).AliasLoop?
    requires forall s :: s in seen ==> exists i: nat :: i < k && AtReference(start, i, defs) && Hop(start, i, defs).value.ref == Some(s)
    ensures AliasCycle(start, defs)
    decreases |defs.Keys - seen|
  {
    var node := Hop(start, k, defs).value;
    var name := node.ref.value;
    assert AtReference(start, k, defs);
    if name !in seen {
      assert name in defs.Keys - seen;
      SubsetSmaller(defs.Keys - (seen + {name}), defs.Keys - seen);
      HopOn(start, k, 1, defs);
      assert Hop(node, 1, defs) == Hop(defs[name], 0, defs);
      LoopHasCycle(start, k + 1, defs, seen + {name});
    }
  }

  /** The loop of both scripts never ends exactly when the references reached from the
      start form a cycle by themselves. */
  lemma LoopsExactlyOnCycle(node: Node, defs: Defs)
    ensures Goal(node, defs).Unfinished? <==> AliasCycle(node, defs)
    ensures Goal(node, defs).Unfinished? <==> forall k: nat :: AtReference(node, k, defs)
  {
    if Goal(node, defs).Unfinished? {
      LoopHasCycle(node, 0, defs, {});
    } else {
      var k := ResolutionIsLast(node, defs, {});
    }
    if AliasCycle(node, defs) {
      var i: nat, j: nat :| i < j && AtReference(node, i, defs) && AtReference(node, j, defs)
                         && Hop(node, i, defs).value.ref == Hop(node, j, defs).value.ref;
      var entry := Hop(node, i, defs).value;
      HopOn(node, i, j - i, defs);
      forall k: nat ensures AtReference(node, k, defs) {
        if k < i {
          HopBefore(node, k, i, defs);
        } else {
          HopOn(node, i, k - i, defs);
          CycleNeverEnds(entry, j - i, k - i, defs);
        }
      }
    }
  }

  /** What the loop arrives at: the first node on the way that is no reference, or a
      reference that no definition answers. */
  lemma {:induction false} GoalIsLastHop(node: Node, defs: Defs, seen: set<string>) returns (k: nat)
    requires !ResolveFrom(node, defs, seen).AliasLoop?
    ensures Hop(node, k, defs).Some?
    ensures var last := Hop(node, k, defs).value;
            if last.ref.None? then ResolveFrom(node, defs, seen) == Resolved(last)
            else last.ref.value !in defs && ResolveFrom(node, defs, seen) == MissingDefinition
    decreases |defs.Keys - seen|
  {
    k := 0;
    if node.ref.Some? && node.ref.value in defs {
      var name := node.ref.value;
      assert name in defs.Keys - seen;
      SubsetSmaller(defs.Keys - (seen + {name}), defs.Keys - seen);
      var rest := GoalIsLastHop(defs[name], defs, seen + {name});
      k := rest + 1;
    }
  }

  /** The loop ends at a node exactly when references lead there and it is none itself;
      it raises exactly when they lead to a name without a definition. */
  lemma GoalExactly(node: Node, defs: Defs, target: Node)
    ensures Goal(node, defs) == Ended(target) <==>
            exists k: nat :: Hop(node, k, defs) == Some(target) && target.ref.None?
    ensures Goal(node, defs) == Raised <==>
            exists k: nat :: Hop(node, k, defs).Some? && Hop(node, k, defs).value.ref.Some?
                          && Hop(node, k, defs).value.ref.value !in defs
  {
    LoopsExactlyOnCycle(node, defs);
    if !Goal(node, defs).Unfinished? {
      var last := GoalIsLastHop(node, defs, {});
      forall k: nat | Hop(node, k, defs).Some? && !AtReference(node, k, defs) ensures k == last {
        if k < last {
          HopBefore(node, k, last, defs);
        } else if last < k {
          HopBefore(node, last, k, defs);
        }
      }
    } else {
      forall k: nat | Hop(node, k, defs).Some? ensures AtReference(node, k, defs) {
      }
    }
  }

  /** Every reference written anywhere in this node resolves. */
  predicate AllResolve(node: Node, defs: Defs) {
    && Resolve(node, defs).Resolved?
    && (forall i :: 0 <= i < |node.props| ==> AllResolve(node.props[i].node, defs))
    && (node.items.Some? ==> AllResolve(node.items.value, defs))
  }

  predicate Closed(defs: Defs) {
    forall d :: d in defs ==> AllResolve(defs[d], defs)
  }

  lemma {:induction false} ResolvedIsClosed(node: Node, defs: Defs, seen: set<string>)
    requires Closed(defs) && AllResolve(node, defs) && ResolveFrom(node, defs, seen).Resolved?
    ensures AllResolve(ResolveFrom(node, defs, seen).node, defs)
    decreases |defs.Keys - seen|
  {
    match node.ref
    case None =>
    case Some(name) =>
      assert name in defs.Keys - seen;
      SubsetSmaller(defs.Keys - (seen + {name}), defs.Keys - seen);
      ResolvedIsClosed(defs[name], defs, seen + {name});
  }

  /** The node a closed node stands for. */
  function Target(node: Node, defs: Defs): (r: Node)
    requires Closed(defs) && AllResolve(node, defs)
    ensures r.ref.None? && AllResolve(r, defs)
    ensures node.ref.None? ==> r == node
    ensures node.ref.Some? ==> node.ref.value in defs
    ensures Resolve(node, defs) == Resolved(r) && Goal(node, defs) == Ended(r)
  {
    ResolvedIsClosed(node, defs, {});
    Resolve(node, defs).node
  }

  // ---------------------------------------------------------------------------
  // Acyclic schemas

  /** Every reference written anywhere in this node names a definition. */
  predicate Ranked(node: Node, defs: Defs) {
    && (node.ref.Some? ==> node.ref.value in defs)
    && (forall i :: 0 <= i < |node.props| ==> Ranked(node.props[i].node, defs))
    && (node.items.Some? ==> Ranked(node.items.value, defs))
  }

  /** One more than the highest rank this node refers to. */
  function Height(node: Node, rank: map<string, nat>): (h: nat)
    ensures node.ref.Some? && node.ref.value in rank ==> rank[node.ref.value] < h
    ensures node.items.Some? ==> Height(node.items.value, rank) <= h
    ensures forall i :: 0 <= i < |node.props| ==> Height(node.props[i].node, rank) <= h
    decreases node, 1
  {
    var own := if node.ref.Some? && node.ref.value in rank then rank[node.ref.value] + 1 else 0;
    var below := if node.items.Some? then Height(node.items.value, rank) else 0;
    Max(own, Max(below, HeightOfProps(node.props, rank)))
  }

  function HeightOfProps(props: seq<Property>, rank: map<string, nat>): (h: nat)
    ensures forall i :: 0 <= i < |props| ==> Height(props[i].node, rank) <= h
    decreases props, 0
  {
    if props == [] then 0
    else Max(Height(props[0].node, rank), HeightOfProps(props[1..], rank))
  }

  function Max(a: nat, b: nat): nat {
    if a < b then b else a
  }

  /** Definitions refer only to definitions of lower rank. */
  predicate Acyclic(defs: Defs, rank: map<string, nat>) {
    forall d :: d in defs ==> d in rank && Ranked(defs[d], defs) && Height(defs[d], rank) <= rank[d]
  }

  lemma {:induction false} RankedResolves(node: Node, defs: Defs, rank: map<string, nat>, seen: set<string>)
    requires Acyclic(defs, rank) && Ranked(node, defs)
    requires forall s :: s in seen ==> s in rank && Height(node, rank) <= rank[s]
    ensures var r := ResolveFrom(node, defs, seen);
            && r.Resolved? && Ranked(r.node, defs)
            && Height(r.node, rank) <= Height(node, rank)
            && (node.ref.Some? ==> Height(r.node, rank) <= rank[node.ref.value] < Height(node, rank))
    decreases |defs.Keys - seen|
  {
    match node.ref
    case None =>
    case Some(name) =>
      assert name in defs.Keys - seen;
      SubsetSmaller(defs.Keys - (seen + {name}), defs.Keys - seen);
      RankedResolves(defs[name], defs, rank, seen + {name});
  }

  lemma {:induction false} RankedAllResolve(node: Node, defs: Defs, rank: map<string, nat>)
    requires Acyclic(defs, rank) && Ranked(node, defs)
    ensures AllResolve(node, defs)
    decreases node
  {
    RankedResolves(node, defs, rank, {});
    forall i | 0 <= i < |node.props| ensures AllResolve(node.props[i].node, defs) {
      RankedAllResolve(node.props[i].node, defs, rank);
    }
    if node.items.Some? {
      RankedAllResolve(node.items.value, defs, rank);
    }
  }

  /** An acyclic schema with no dangling reference is closed. */
  lemma AcyclicIsClosed(defs: Defs, rank: map<string, nat>)
    requires Acyclic(defs, rank)
    ensures Closed(defs)
  {
    forall d | d in defs ensures AllResolve(defs[d], defs) {
      RankedAllResolve(defs[d], defs, rank);
    }
  }

  /** The node a reference of an acyclic schema stands for; it refers only to
      strictly lower definitions than the reference itself. */
  function Deref(node: Node, defs: Defs, rank: map<string, nat>): (r: Node)
    requires Acyclic(defs, rank) && Ranked(node, defs)
    ensures r.ref.None? && Ranked(r, defs) && Resolve(node, defs) == Resolved(r) && Goal(node, defs) == Ended(r)
    ensures Height(r, rank) <= Height(node, rank)
    ensures node.ref.Some? ==> node.ref.value in rank && Height(r, rank) <= rank[node.ref.value] < Height(node, rank)
    ensures node.ref.None? ==> r == node
  {
    RankedResolves(node, defs, rank, {});
    Resolve(node, defs).node
  }

  // ---------------------------------------------------------------------------
  // Paths as the gate prints them

  predicate PlainChar(c: char) {
    c != '.' && c != '[' && c != ']'
  }

  /** Property names the dotted notation can carry. */
  predicate PlainPath(p: Path) {
    forall i :: 0 <= i < |p| && p[i].Key? ==> p[i].name != [] && forall c :: c in p[i].name ==> PlainChar(c)
  }

  /** `f"{path}.{key}" if path else key`, and `f"{path}[]"` for a list element. */
  function Render(p: Path): string {
    if p == [] then ""
    else
      var front, last := Render(p[..|p| - 1]), p[|p| - 1];
      match last
      case Elem => front + "[]"
      case Key(name) => if front == "" then name else front + "." + name
  }

  lemma RenderEmpty(p: Path)
    requires PlainPath(p)
    ensures Render(p) == "" <==> p == []
  {
  }

  /** Text before and after the last dot is determined by the whole. */
  lemma {:induction false} LastDot(a: string, k: string, b: string, j: string)
    requires a + "." + k == b + "." + j && '.' !in k && '.' !in j
    ensures a == b && k == j
  {
    var s, t := a + "." + k, b + "." + j;
    assert s[|a|] == '.' && t[|b|] == '.';
    assert forall i :: |a| < i < |s| ==> s[i] == k[i - |a| - 1];
    assert forall i :: |b| < i < |t| ==> t[i] == j[i - |b| - 1];
    assert |a| == |b|;
    assert s[..|a|] == a && t[..|b|] == b;
    assert s[|a| + 1..] == k && t[|b| + 1..] == j;
  }

  /** Two paths print alike only when they are the same path. */
  lemma {:induction false} RenderInjective(p: Path, q: Path)
    requires PlainPath(p) && PlainPath(q) && Render(p) == Render(q)
    ensures p == q
    decreases |p|
  {
    RenderEmpty(p);
    RenderEmpty(q);
    if p != [] && q != [] {
      var p0, q0 := p[..|p| - 1], q[..|q| - 1];
      var pl, ql := p[|p| - 1], q[|q| - 1];
      var s := Render(p);
      assert PlainPath(p0) && PlainPath(q0);
      RenderEmpty(p0);
      RenderEmpty(q0);
      LastCharacter(p);
      LastCharacter(q);
      assert pl.Elem? == ql.Elem?;
      if pl.Elem? {
        assert s[..|s| - 2] == Render(p0) && s[..|s| - 2] == Render(q0);
      } else {
        SplitKeys(Render(p0), pl.name, Render(q0), ql.name);
      }
      RenderInjective(p0, q0);
      assert p == p0 + [pl] && q == q0 + [ql];
    }
  }

  lemma LastCharacter(p: Path)
    requires PlainPath(p) && p != []
    ensures Render(p) != "" && (Render(p)[|Render(p)| - 1] == ']' <==> p[|p| - 1].Elem?)
  {
    var last := p[|p| - 1];
    if last.Key? {
      assert last.name[|last.name| - 1] in last.name;
      assert Render(p)[|Render(p)| - 1] == last.name[|last.name| - 1];
    }
  }

  lemma SplitKeys(a: string, k: string, b: string, j: string)
    requires '.' !in k && '.' !in j
    requires (if a == "" then k else a + "." + k) == (if b == "" then j else b + "." + j)
    ensures a == b && k == j
  {
    var s := if a == "" then k else a + "." + k;
    assert a != "" ==> s[|a|] == '.';
    assert b != "" ==> s[|b|] == '.';
    if a != "" && b != "" {
      LastDot(a, k, b, j);
    }
  }
}
