/** The form manifest of scripts/gen-device-editor-sections.py: one descriptor per
    device property, and the field paths the manifest can set. */
module EditorForm {
  import opened Text
  import opened Schema

  datatype FieldKind = Scalar | Enum | ScalarList | ObjectList | Object | FreeMap

  datatype Field = Field(name: string, kind: FieldKind, fields: seq<Field>)

  datatype Section = Section(key: string, kind: FieldKind, fields: seq<Field>)

  predicate ScalarKind(kind: string) {
    kind == "string" || kind == "boolean" || kind == "integer" || kind == "number"
  }

  predicate HandBound(name: string) {
    name in {"name", "type", "mac", "vendor", "mac_suffix", "ips"}
  }

  const DEVICE_PREFIX: Path := [Key("devices"), Elem]

  /** The gate's path for a hand-built control. */
  function HandBoundPath(name: string): Path {
    if name == "ips" then DEVICE_PREFIX + [Key("ips"), Elem] else DEVICE_PREFIX + [Key(name)]
  }

  // ---------------------------------------------------------------------------
  // describe / child_fields

  const EMPTY := Node(None, "", [], None, false)

  /** `resolved.get("items", {})` */
  function ItemsOf(node: Node): Node {
    if node.items.Some? then node.items.value else EMPTY
  }

  function Push(node: Node, stack: seq<string>): seq<string> {
    if node.ref.Some? then stack + [node.ref.value] else stack
  }

  /** `describe` with at most `fuel` nested calls. A property whose reference is on the
      stack has no field; a list item's reference is never put there. */
  function DescribeIn(fuel: nat, name: string, node: Node, stack: seq<string>, defs: Defs): Attempt<Option<Field>>
    decreases fuel, 0, 0
  {
    if fuel == 0 then Unfinished
    else if node.ref.Some? && node.ref.value in stack then Ended(None)
    else
      var target :- Goal(node, defs);
      var inner := Push(node, stack);
      if target.hasEnum then Ended(Some(Field(name, Enum, [])))
      else if target.kind == "array" then
        var item :- Goal(ItemsOf(target), defs);
        if item.props == [] then Ended(Some(Field(name, ScalarList, [])))
        else
          var fields :- ChildrenIn(fuel - 1, item.props, inner, defs);
          Ended(Some(Field(name, ObjectList, fields)))
      else if target.props != [] then
        var fields :- ChildrenIn(fuel - 1, target.props, inner, defs);
        Ended(Some(Field(name, Object, fields)))
      else if target.kind == "object" then Ended(Some(Field(name, FreeMap, [])))
      else if ScalarKind(target.kind) then Ended(Some(Field(name, Scalar, [])))
      else Ended(None)
  }

  function Listed(field: Option<Field>): seq<Field> {
    if field.Some? then [field.value] else []
  }

  /** `child_fields` */
  function ChildrenIn(fuel: nat, props: seq<Property>, stack: seq<string>, defs: Defs): Attempt<seq<Field>>
    decreases fuel, 1, |props|
  {
    if props == [] then Ended([])
    else
      var first :- DescribeIn(fuel, props[0].name, props[0].node, stack, defs);
      var rest :- ChildrenIn(fuel, props[1..], stack, defs);
      Ended(Listed(first) + rest)
  }

  /** `describe`, wherever it ends; `fuel` is any depth its recursion stays within. */
  method DescribeField(name: string, node: Node, stack: seq<string>, defs: Defs, ghost fuel: nat)
    returns (r: Attempt<Option<Field>>)
    requires !DescribeIn(fuel, name, node, stack, defs).Unfinished?
    ensures r == DescribeIn(fuel, name, node, stack, defs)
    decreases fuel, 0
  {
    if node.ref.Some? && node.ref.value in stack {
      return Ended(None);
    }
    var target :- FollowReferences(node, defs);
    var inner := Push(node, stack);
    if target.hasEnum {
      return Ended(Some(Field(name, Enum, [])));
    }
    if target.kind == "array" {
      var item :- FollowReferences(ItemsOf(target), defs);
      if item.props != [] {
        var fields :- DescribeChildren(item, inner, defs, fuel - 1);
        return Ended(Some(Field(name, ObjectList, fields)));
      }
      return Ended(Some(Field(name, ScalarList, [])));
    }
    if target.kind == "object" || target.props != [] {
      if target.props != [] {
        var fields :- DescribeChildren(target, inner, defs, fuel - 1);
        return Ended(Some(Field(name, Object, fields)));
      }
      return Ended(Some(Field(name, FreeMap, [])));
    }
    if ScalarKind(target.kind) {
      return Ended(Some(Field(name, Scalar, [])));
    }
    r := Ended(None);
  }

  function Onto(done: seq<Field>, rest: Attempt<seq<Field>>): Attempt<seq<Field>> {
    if rest.Ended? then Ended(done + rest.value) else rest
  }

  /** `child_fields` */
  method DescribeChildren(node: Node, stack: seq<string>, defs: Defs, ghost fuel: nat)
    returns (r: Attempt<seq<Field>>)
    requires !ChildrenIn(fuel, node.props, stack, defs).Unfinished?
    ensures r == ChildrenIn(fuel, node.props, stack, defs)
    decreases fuel, 1
  {
    hide DescribeIn;
    var fields := [];
    assert node.props[0..] == node.props;
    OntoNothing(ChildrenIn(fuel, node.props, stack, defs));
    for i := 0 to |node.props|
      invariant Onto(fields, ChildrenIn(fuel, node.props[i..], stack, defs)) == ChildrenIn(fuel, node.props, stack, defs)
    {
      var p := node.props[i];
      var rest := node.props[i..];
      assert rest[0] == p && rest[1..] == node.props[i + 1..];
      OntoStep(fields, DescribeIn(fuel, p.name, p.node, stack, defs), ChildrenIn(fuel, rest[1..], stack, defs));
      var described :- DescribeField(p.name, p.node, stack, defs, fuel);
      fields := fields + Listed(described);
    }
    assert node.props[|node.props|..] == [] && fields + [] == fields;
    r := Ended(fields);
  }

  lemma OntoNothing(rest: Attempt<seq<Field>>)
    ensures Onto([], rest) == rest
  {
    if rest.Ended? {
      assert [] + rest.value == rest.value;
    }
  }

  lemma OntoStep(done: seq<Field>, first: Attempt<Option<Field>>, rest: Attempt<seq<Field>>)
    ensures first.Ended? ==> Onto(done + Listed(first.value), rest) == Onto(done, Onto(Listed(first.value), rest))
  {
    if first.Ended? && rest.Ended? {
      assert done + Listed(first.value) + rest.value == done + (Listed(first.value) + rest.value);
    }
  }

  /** Which control a property gets: none if its reference is open; a picker for an enum,
      whatever else it says; a list of groups or of values for an array; a group for
      properties; a free map for an object without them; an input for the four scalar
      types; otherwise none. */
  lemma KindExactly(fuel: nat, name: string, node: Node, stack: seq<string>, defs: Defs)
    requires DescribeIn(fuel, name, node, stack, defs).Ended?
    ensures var field := DescribeIn(fuel, name, node, stack, defs).value;
            if node.ref.Some? && node.ref.value in stack then field == None
            else
              Goal(node, defs).Ended? &&
              var target := Goal(node, defs).value;
              var kind := if field.Some? then Some(field.value.kind) else None;
              && (kind == Some(Enum) <==> target.hasEnum)
              && (kind == Some(ObjectList) || kind == Some(ScalarList) <==> !target.hasEnum && target.kind == "array")
              && (kind == Some(ObjectList) ==>
                    && target.items.Some? && Goal(target.items.value, defs).Ended?
                    && Goal(target.items.value, defs).value.props != [])
              && (kind == Some(ScalarList) && target.items.Some? ==>
                    && Goal(target.items.value, defs).Ended?
                    && Goal(target.items.value, defs).value.props == [])
              && (kind == Some(Object) <==> !target.hasEnum && target.kind != "array" && target.props != [])
              && (kind == Some(FreeMap) <==> !target.hasEnum && target.kind == "object" && target.props == [])
              && (kind == Some(Scalar) <==>
                    !target.hasEnum && target.props == [] && target.kind in {"string", "boolean", "integer", "number"})
  {
    hide ChildrenIn;
  }

  lemma DescribedNameIn(fuel: nat, name: string, node: Node, stack: seq<string>, defs: Defs)
    ensures var f := DescribeIn(fuel, name, node, stack, defs);
            f.Ended? && f.value.Some? ==> f.value.value.name == name
  {
  }

  /** More fuel never changes an outcome. */
  lemma {:induction false} FuelIsEnough(fuel: nat, more: nat, name: string, node: Node, stack: seq<string>, defs: Defs)
    requires fuel <= more && !DescribeIn(fuel, name, node, stack, defs).Unfinished?
    ensures DescribeIn(more, name, node, stack, defs) == DescribeIn(fuel, name, node, stack, defs)
    decreases fuel, 0, 0
  {
    if !(node.ref.Some? && node.ref.value in stack) && Goal(node, defs).Ended? {
      var target := Goal(node, defs).value;
      var inner := Push(node, stack);
      if !target.hasEnum && target.kind == "array" && Goal(ItemsOf(target), defs).Ended? {
        var item := Goal(ItemsOf(target), defs).value;
        if item.props != [] {
          FuelIsEnoughBelow(fuel - 1, more - 1, item.props, inner, defs);
        }
      } else if !target.hasEnum && target.kind != "array" && target.props != [] {
        FuelIsEnoughBelow(fuel - 1, more - 1, target.props, inner, defs);
      }
    }
  }

  lemma {:induction false} FuelIsEnoughBelow(fuel: nat, more: nat, props: seq<Property>, stack: seq<string>, defs: Defs)
    requires fuel <= more && !ChildrenIn(fuel, props, stack, defs).Unfinished?
    ensures ChildrenIn(more, props, stack, defs) == ChildrenIn(fuel, props, stack, defs)
    decreases fuel, 1, |props|
  {
    hide DescribeIn;
    if props != [] {
      FuelIsEnough(fuel, more, props[0].name, props[0].node, stack, defs);
      if DescribeIn(fuel, props[0].name, props[0].node, stack, defs).Ended? {
        FuelIsEnoughBelow(fuel, more, props[1..], stack, defs);
      }
    }
  }

  // ---------------------------------------------------------------------------
  // Acyclic schemas

  /** The descriptor on an acyclic schema, where the recursion always ends. */
  ghost function Describe(name: string, node: Node, stack: seq<string>, defs: Defs, rank: map<string, nat>): Option<Field>
    requires Acyclic(defs, rank) && Ranked(node, defs)
    decreases Height(node, rank), node, 1
  {
    if node.ref.Some? && node.ref.value in stack then None
    else
      var target := Deref(node, defs, rank);
      var inner := Push(node, stack);
      if target.hasEnum then Some(Field(name, Enum, []))
      else if target.kind == "array" then
        var item := Deref(ItemsOf(target), defs, rank);
        if item.props != [] then Some(Field(name, ObjectList, ChildFields(item.props, inner, defs, rank)))
        else Some(Field(name, ScalarList, []))
      else if target.props != [] then Some(Field(name, Object, ChildFields(target.props, inner, defs, rank)))
      else if target.kind == "object" then Some(Field(name, FreeMap, []))
      else if ScalarKind(target.kind) then Some(Field(name, Scalar, []))
      else None
  }

  ghost function ChildFields(props: seq<Property>, stack: seq<string>, defs: Defs, rank: map<string, nat>): seq<Field>
    requires Acyclic(defs, rank) && forall i :: 0 <= i < |props| ==> Ranked(props[i].node, defs)
    decreases HeightOfProps(props, rank), props, 0
  {
    if props == [] then []
    else Listed(Describe(props[0].name, props[0].node, stack, defs, rank)) + ChildFields(props[1..], stack, defs, rank)
  }

  /** On an acyclic schema `describe` ends, with that descriptor. */
  lemma {:induction false} DescribeEnds(name: string, node: Node, stack: seq<string>, defs: Defs, rank: map<string, nat>)
    returns (fuel: nat)
    requires Acyclic(defs, rank) && Ranked(node, defs)
    ensures DescribeIn(fuel, name, node, stack, defs) == Ended(Describe(name, node, stack, defs, rank))
    decreases Height(node, rank), node, 1
  {
    hide Acyclic, Height, ChildFields, ChildrenIn;
    fuel := 1;
    if !(node.ref.Some? && node.ref.value in stack) {
      var target := Deref(node, defs, rank);
      var inner := Push(node, stack);
      if !target.hasEnum && target.kind == "array" {
        var item := Deref(ItemsOf(target), defs, rank);
        if item.props != [] {
          var below := ChildrenEnd(item, 0, inner, defs, rank);
          assert item.props[0..] == item.props;
          fuel := below + 1;
        }
      } else if !target.hasEnum && target.props != [] {
        var below := ChildrenEnd(target, 0, inner, defs, rank);
        assert target.props[0..] == target.props;
        fuel := below + 1;
      }
    }
  }

  lemma {:induction false} ChildrenEnd(node: Node, from: nat, stack: seq<string>, defs: Defs, rank: map<string, nat>)
    returns (fuel: nat)
    requires Acyclic(defs, rank) && Ranked(node, defs) && from <= |node.props|
    ensures ChildrenIn(fuel, node.props[from..], stack, defs) == Ended(ChildFields(node.props[from..], stack, defs, rank))
    decreases Height(node, rank), node, 0, |node.props| - from
  {
    hide Acyclic, Height, Describe, DescribeIn;
    fuel := 0;
    if from < |node.props| {
      var p := node.props[from];
      assert node.props[from..][0] == p && node.props[from..][1..] == node.props[from + 1..];
      var own := DescribeEnds(p.name, p.node, stack, defs, rank);
      var rest := ChildrenEnd(node, from + 1, stack, defs, rank);
      fuel := own + rest;
      FuelIsEnough(own, fuel, p.name, p.node, stack, defs);
      FuelIsEnoughBelow(rest, fuel, node.props[from + 1..], stack, defs);
    }
  }

  // ---------------------------------------------------------------------------
  // build

  predicate SectionKind(kind: FieldKind) {
    kind == Object || kind == ObjectList || kind == FreeMap
  }

  /** The described device properties that no hand-built control owns. */
  function GeneratedIn(fuel: nat, props: seq<Property>, defs: Defs): Attempt<seq<Field>> {
    if props == [] then Ended([])
    else
      var last := props[|props| - 1];
      var front :- GeneratedIn(fuel, props[..|props| - 1], defs);
      if HandBound(last.name) then Ended(front)
      else
        var field :- DescribeIn(fuel, last.name, last.node, [], defs);
        Ended(front + Listed(field))
  }

  ghost function Generated(props: seq<Property>, defs: Defs, rank: map<string, nat>): seq<Field>
    requires Acyclic(defs, rank) && forall i :: 0 <= i < |props| ==> Ranked(props[i].node, defs)
  {
    if props == [] then []
    else
      var front, last := Generated(props[..|props| - 1], defs, rank), props[|props| - 1];
      if HandBound(last.name) then front else front + Listed(Describe(last.name, last.node, [], defs, rank))
  }

  lemma {:induction false} FuelIsEnoughForAll(fuel: nat, more: nat, props: seq<Property>, defs: Defs)
    requires fuel <= more && !GeneratedIn(fuel, props, defs).Unfinished?
    ensures GeneratedIn(more, props, defs) == GeneratedIn(fuel, props, defs)
    decreases |props|
  {
    hide DescribeIn, HandBound;
    if props != [] {
      var front, last := props[..|props| - 1], props[|props| - 1];
      FuelIsEnoughForAll(fuel, more, front, defs);
      if GeneratedIn(fuel, front, defs).Ended? && !HandBound(last.name) {
        FuelIsEnough(fuel, more, last.name, last.node, [], defs);
      }
    }
  }

  /** On an acyclic schema the manifest is finished. */
  lemma {:induction false} GeneratedEnds(props: seq<Property>, defs: Defs, rank: map<string, nat>) returns (fuel: nat)
    requires Acyclic(defs, rank) && forall i :: 0 <= i < |props| ==> Ranked(props[i].node, defs)
    ensures GeneratedIn(fuel, props, defs) == Ended(Generated(props, defs, rank))
    decreases |props|
  {
    hide Acyclic, Describe, DescribeIn, HandBound;
    fuel := 0;
    if props != [] {
      var front, last := props[..|props| - 1], props[|props| - 1];
      var before := GeneratedEnds(front, defs, rank);
      var own := DescribeEnds(last.name, last.node, [], defs, rank);
      fuel := before + own;
      FuelIsEnoughForAll(before, fuel, front, defs);
      FuelIsEnough(own, fuel, last.name, last.node, [], defs);
    }
  }

  function ScalarFields(fields: seq<Field>): seq<Field> {
    if fields == [] then []
    else
      var front, last := ScalarFields(fields[..|fields| - 1]), fields[|fields| - 1];
      if SectionKind(last.kind) then front else front + [last]
  }

  function FieldSections(fields: seq<Field>): seq<Section> {
    if fields == [] then []
    else
      var front, last := FieldSections(fields[..|fields| - 1]), fields[|fields| - 1];
      if SectionKind(last.kind) then front + [Section(last.name, last.kind, last.fields)] else front
  }

  /** Scalars share one leading section; every other field is a section. */
  function Arrange(fields: seq<Field>): seq<Section> {
    var scalars := ScalarFields(fields);
    (if scalars != [] then [Section("device", Object, scalars)] else []) + FieldSections(fields)
  }

  /** The values share the first section, under the key `device`; after it come the
      other fields, one section each, in the order of the properties. */
  lemma ArrangeOrder(before: seq<Field>, field: Field, after: seq<Field>)
    ensures var fields := before + [field] + after;
            var values := if exists f :: f in fields && !SectionKind(f.kind) then 1 else 0;
            && (values == 1 ==> Arrange(fields) != [] && Arrange(fields)[0] == Section("device", Object, ScalarFields(fields)))
            && |Arrange(fields)| == values + |FieldSections(fields)|
            && (SectionKind(field.kind) ==>
                  var at := values + |FieldSections(before)|;
                  at < |Arrange(fields)| && Arrange(fields)[at] == Section(field.name, field.kind, field.fields))
            && (!SectionKind(field.kind) ==>
                  |ScalarFields(before)| < |ScalarFields(fields)| && ScalarFields(fields)[|ScalarFields(before)|] == field)
  {
    var fields := before + [field] + after;
    SplitFields(before + [field], after);
    ArrangeStep(before, field);
    SomeScalar(fields);
  }

  lemma {:induction false} SplitFields(a: seq<Field>, b: seq<Field>)
    ensures ScalarFields(a + b) == ScalarFields(a) + ScalarFields(b)
    ensures FieldSections(a + b) == FieldSections(a) + FieldSections(b)
  {
    hide ScalarFields, FieldSections;
    if b == [] {
      NothingArranged(0, [], map[]);
      assert a + b == a && ScalarFields(a) + [] == ScalarFields(a) && FieldSections(a) + [] == FieldSections(a);
    } else {
      var front, last := b[..|b| - 1], b[|b| - 1];
      SplitFields(a, front);
      assert b == front + [last] && a + b == a + front + [last];
      LastField(a, front, last);
    }
  }

  lemma LastField(a: seq<Field>, front: seq<Field>, last: Field)
    requires ScalarFields(a + front) == ScalarFields(a) + ScalarFields(front)
    requires FieldSections(a + front) == FieldSections(a) + FieldSections(front)
    ensures ScalarFields(a + front + [last]) == ScalarFields(a) + ScalarFields(front + [last])
    ensures FieldSections(a + front + [last]) == FieldSections(a) + FieldSections(front + [last])
  {
    hide ScalarFields, FieldSections;
    ArrangeStep(a + front, last);
    ArrangeStep(front, last);
  }

  lemma {:induction false} SomeScalar(fields: seq<Field>)
    ensures ScalarFields(fields) != [] <==> exists f :: f in fields && !SectionKind(f.kind)
  {
    if fields != [] {
      var front, last := fields[..|fields| - 1], fields[|fields| - 1];
      SomeScalar(front);
      assert forall f :: f in fields <==> f in front || f == last;
    }
  }

  /** `build`, on the properties of the `Device` definition. */
  method BuildSections(props: seq<Property>, defs: Defs, ghost fuel: nat) returns (r: Attempt<seq<Section>>)
    requires !GeneratedIn(fuel, props, defs).Unfinished?
    ensures var fields := GeneratedIn(fuel, props, defs);
            if fields.Ended? then r == Ended(Arrange(fields.value)) else r == Raised
  {
    hide DescribeIn, ScalarFields, FieldSections, GeneratedIn, HandBound;
    var scalars: seq<Field>, sections: seq<Section> := [], [];
    ghost var fields: seq<Field> := [];
    NothingArranged(fuel, props[..0], defs);
    for i := 0 to |props|
      invariant GeneratedIn(fuel, props[..i], defs) == Ended(fields)
      invariant scalars == ScalarFields(fields) && sections == FieldSections(fields)
    {
      var p := props[i];
      assert props[..i + 1] == props[..i] + [p];
      GeneratedStep(fuel, props, i, defs);
      if !HandBound(p.name) {
        var described :- DescribeField(p.name, p.node, [], defs, fuel);
        if described.Some? {
          var field := described.value;
          ArrangeStep(fields, field);
          if SectionKind(field.kind) {
            DescribedNameIn(fuel, p.name, p.node, [], defs);
            sections := sections + [Section(p.name, field.kind, field.fields)];
          } else {
            scalars := scalars + [field];
          }
        }
        assert described.None? ==> fields + Listed(described) == fields;
        fields := fields + Listed(described);
      }
    }
    assert props[..|props|] == props;
    assert [] + sections == sections;
    if scalars != [] {
      sections := [Section("device", Object, scalars)] + sections;
    }
    r := Ended(sections);
  }

  lemma NothingArranged(fuel: nat, props: seq<Property>, defs: Defs)
    requires props == []
    ensures GeneratedIn(fuel, props, defs) == Ended([])
    ensures ScalarFields([]) == [] && FieldSections([]) == []
  {
  }

  /** A failure at one property is the failure of the whole. */
  lemma GeneratedStep(fuel: nat, props: seq<Property>, i: nat, defs: Defs)
    requires i < |props| && GeneratedIn(fuel, props[..i], defs).Ended?
    ensures var p, before := props[i], GeneratedIn(fuel, props[..i], defs).value;
            var described := DescribeIn(fuel, p.name, p.node, [], defs);
            if HandBound(p.name) then GeneratedIn(fuel, props[..i + 1], defs) == Ended(before)
            else if described.Ended? then GeneratedIn(fuel, props[..i + 1], defs) == Ended(before + Listed(described.value))
            else if described.Raised? then GeneratedIn(fuel, props, defs).Raised?
            else GeneratedIn(fuel, props, defs).Unfinished?
  {
    hide DescribeIn, HandBound;
    var longer := props[..i + 1];
    assert longer[..i] == props[..i] && longer[i] == props[i];
    if !GeneratedIn(fuel, longer, defs).Ended? {
      FailureStays(fuel, props, i + 1, defs);
    }
  }

  lemma {:induction false} FailureStays(fuel: nat, props: seq<Property>, n: nat, defs: Defs)
    requires n <= |props| && !GeneratedIn(fuel, props[..n], defs).Ended?
    ensures GeneratedIn(fuel, props, defs) == GeneratedIn(fuel, props[..n], defs)
    decreases |props|
  {
    hide DescribeIn, HandBound;
    if n == |props| {
      assert props[..n] == props;
    } else {
      var front := props[..|props| - 1];
      assert front[..n] == props[..n];
      FailureStays(fuel, front, n, defs);
    }
  }

  lemma ArrangeStep(fields: seq<Field>, field: Field)
    ensures ScalarFields(fields + [field]) ==
            if SectionKind(field.kind) then ScalarFields(fields) else ScalarFields(fields) + [field]
    ensures FieldSections(fields + [field]) ==
            if SectionKind(field.kind) then FieldSections(fields) + [Section(field.name, field.kind, field.fields)]
            else FieldSections(fields)
  {
    var longer := fields + [field];
    assert longer[..|longer| - 1] == fields;
  }

  lemma DescribedName(name: string, node: Node, stack: seq<string>, defs: Defs, rank: map<string, nat>)
    requires Acyclic(defs, rank) && Ranked(node, defs)
    ensures var f := Describe(name, node, stack, defs, rank); f.Some? ==> f.value.name == name
  {
  }

  // ---------------------------------------------------------------------------
  // binding_paths

  /** The inner `walk`: every path a field can set. */
  function FieldPaths(field: Field, path: Path): seq<Path>
    decreases field, 1
  {
    match field.kind
    case Object => FieldListPaths(field.fields, path)
    case ObjectList => FieldListPaths(field.fields, path + [Elem])
    case ScalarList => [path + [Elem]]
    case _ => [path]
  }

  function FieldListPaths(fields: seq<Field>, base: Path): seq<Path>
    decreases fields, 0
  {
    if fields == [] then []
    else FieldPaths(fields[0], base + [Key(fields[0].name)]) + FieldListPaths(fields[1..], base)
  }

  function SectionPaths(s: Section): seq<Path> {
    if s.key == "device" then FieldListPaths(s.fields, DEVICE_PREFIX)
    else FieldPaths(Field(s.key, s.kind, s.fields), DEVICE_PREFIX + [Key(s.key)])
  }

  function BindingPaths(sections: seq<Section>): seq<Path> {
    if sections == [] then [] else SectionPaths(sections[0]) + BindingPaths(sections[1..])
  }

  /** `binding_paths`: the walk appends to one shared list. */
  class PathCollector {
    var paths: seq<Path>

    constructor ()
      ensures paths == []
    {
      paths := [];
    }

    method Visit(field: Field, path: Path)
      modifies this
      ensures paths == old(paths) + FieldPaths(field, path)
      decreases field, 1
    {
      if field.kind == Object {
        VisitAll(field.fields, path);
      } else if field.kind == ObjectList {
        VisitAll(field.fields, path + [Elem]);
      } else {
        paths := paths + [if field.kind == ScalarList then path + [Elem] else path];
      }
    }

    method VisitAll(fields: seq<Field>, base: Path)
      modifies this
      ensures paths == old(paths) + FieldListPaths(fields, base)
      decreases fields, 0
    {
      for i := 0 to |fields|
        invariant paths + FieldListPaths(fields[i..], base) == old(paths) + FieldListPaths(fields, base)
      {
        assert fields[i..][1..] == fields[i + 1..];
        Visit(fields[i], base + [Key(fields[i].name)]);
      }
      assert fields[|fields|..] == [];
    }

    method Collect(sections: seq<Section>)
      modifies this
      ensures paths == old(paths) + BindingPaths(sections)
    {
      for i := 0 to |sections|
        invariant paths + BindingPaths(sections[i..]) == old(paths) + BindingPaths(sections)
      {
        var s := sections[i];
        assert sections[i..][1..] == sections[i + 1..];
        if s.key == "device" {
          VisitAll(s.fields, DEVICE_PREFIX);
        } else {
          Visit(Field(s.key, s.kind, s.fields), DEVICE_PREFIX + [Key(s.key)]);
        }
      }
      assert sections[|sections|..] == [];
    }
  }
}
