/** Where a draft's walk references are, by place in the tree rather than by the order
    of the traversal: the scalar value of a `walk_file` key, and the scalar items of a
    list under a `walk_files` key, in any mapping. */
module WalkPlaces {
  import opened Text
  import opened WalkRebase

  /** The way to a node: an index into the content at each level. */
  type Place = seq<nat>

  function ContentOf(node: Node): seq<Node> {
    if node.Scalar? || node.Alias? then [] else node.content
  }

  function NodeAt(node: Node, place: Place): Option<Node> {
    if place == [] then Some(node)
    else if place[0] < |ContentOf(node)| then NodeAt(ContentOf(node)[place[0]], place[1..])
    else None
  }

  /** The node at `place` is the value of this key in a mapping. */
  predicate IsValueOf(node: Node, place: Place, key: string) {
    place != [] &&
    var i, parent := place[|place| - 1], NodeAt(node, place[..|place| - 1]);
    parent.Some? && parent.value.Mapping? && i % 2 == 1 && i < |parent.value.content| &&
    ValueText(parent.value.content[i - 1]) == key
  }

  predicate IsReference(node: Node, place: Place) {
    IsValueOf(node, place, "walk_file") ||
    (|place| >= 2 &&
     var list := place[..|place| - 1];
     NodeAt(node, list).Some? && NodeAt(node, list).value.Sequence? && IsValueOf(node, list, "walk_files"))
  }

  // ---------------------------------------------------------------------------
  // The traversal, place by place

  /** How the traversal looks at a node: as any node, as something that may be a
      reference, or as something that may be a list of them. */
  datatype View = AsNode | AsWalk | AsWalks

  function ViewOfChild(view: View, node: Node, i: nat): View {
    if node.Mapping? && i % 2 == 1 && i < |node.content| then
      if ValueText(node.content[i - 1]) == "walk_file" then AsWalk
      else if ValueText(node.content[i - 1]) == "walk_files" then AsWalks
      else AsNode
    else if node.Sequence? && view == AsWalks then AsWalk
    else AsNode
  }

  function Viewed(f: string -> string, view: View, node: Node): Node {
    match view
    case AsNode => Rewrite(f, node)
    case AsWalk => RewriteItem(f, node)
    case AsWalks => if node.Sequence? then Sequence(RewriteItems(f, node.content)) else Rewrite(f, node)
  }

  function ViewAt(view: View, node: Node, place: Place): View
    decreases |place|
  {
    if place == [] then view
    else if place[0] < |ContentOf(node)| then
      ViewAt(ViewOfChild(view, node, place[0]), ContentOf(node)[place[0]], place[1..])
    else AsNode
  }

  lemma {:induction false} RewriteAllAt(f: string -> string, nodes: seq<Node>, i: nat)
    requires i < |nodes|
    ensures RewriteAll(f, nodes)[i] == Rewrite(f, nodes[i])
  {
    if i > 0 {
      RewriteAllAt(f, nodes[1..], i - 1);
    }
  }

  lemma {:induction false} RewriteItemsAt(f: string -> string, nodes: seq<Node>, i: nat)
    requires i < |nodes|
    ensures RewriteItems(f, nodes)[i] == RewriteItem(f, nodes[i])
  {
    if i > 0 {
      RewriteItemsAt(f, nodes[1..], i - 1);
    }
  }

  lemma LoneKey(f: string -> string, content: seq<Node>)
    requires |content| < 2
    ensures RewriteEntries(f, content) == RewriteAll(f, content)
  {
  }

  lemma {:induction false} RewriteEntriesAt(f: string -> string, content: seq<Node>, i: nat)
    requires i < |content|
    ensures RewriteEntries(f, content)[i] ==
            if i % 2 == 1 then RewriteValue(f, ValueText(content[i - 1]), content[i]) else Rewrite(f, content[i])
    decreases |content|
  {
    hide RewriteValue, Rewrite, RewriteEntries, RewriteAll;
    if |content| < 2 {
      LoneKey(f, content);
      RewriteAllAt(f, content, i);
    } else {
      EntryParts(f, content);
      if i >= 2 {
        var rest := content[2..];
        RewriteEntriesAt(f, rest, i - 2);
        assert RewriteEntries(f, content)[i] == RewriteEntries(f, content)[2..][i - 2];
        assert rest[i - 2] == content[i] && (i % 2 == 1 ==> rest[i - 3] == content[i - 1]);
      }
    }
  }

  /** What stays of a node under any view. */
  lemma ViewedKind(f: string -> string, view: View, node: Node)
    ensures var now := Viewed(f, view, node);
            match node
            case Scalar(value) => now == if view == AsWalk then Scalar(f(value)) else node
            case Alias(value) => now == node
            case Mapping(content) => now == Mapping(RewriteEntries(f, content))
            case Sequence(content) =>
              now == Sequence(if view == AsWalks then RewriteItems(f, content) else RewriteAll(f, content))
            case Document(content) => now == Document(RewriteAll(f, content))
  {
    assert RewriteItem(f, node) == if node.Scalar? then Scalar(f(node.value)) else Rewrite(f, node);
  }

  lemma ViewedChild(f: string -> string, view: View, node: Node, i: nat)
    requires i < |ContentOf(node)|
    ensures |ContentOf(Viewed(f, view, node))| == |ContentOf(node)|
    ensures ContentOf(Viewed(f, view, node))[i] == Viewed(f, ViewOfChild(view, node, i), ContentOf(node)[i])
  {
    ViewedKind(f, view, node);
    match node
    case Mapping(content) => RewriteEntriesAt(f, content, i);
    case Sequence(content) =>
      RewriteAllAt(f, content, i);
      RewriteItemsAt(f, content, i);
    case Document(content) => RewriteAllAt(f, content, i);
  }

  lemma {:induction false} ViewedAt(f: string -> string, view: View, node: Node, place: Place)
    ensures var was := NodeAt(node, place);
            NodeAt(Viewed(f, view, node), place) ==
            if was.Some? then Some(Viewed(f, ViewAt(view, node, place), was.value)) else None
    decreases |place|
  {
    hide Viewed, ViewOfChild;
    if place != [] {
      ViewedKind(f, view, node);
      if place[0] < |ContentOf(node)| {
        ViewedChild(f, view, node, place[0]);
        ViewedAt(f, ViewOfChild(view, node, place[0]), ContentOf(node)[place[0]], place[1..]);
      }
    }
  }

  lemma {:induction false} ViewOneDeeper(view: View, node: Node, place: Place, i: nat)
    ensures NodeAt(node, place).Some? && i < |ContentOf(NodeAt(node, place).value)| ==>
              && ViewAt(view, node, place + [i]) == ViewOfChild(ViewAt(view, node, place), NodeAt(node, place).value, i)
              && NodeAt(node, place + [i]) == Some(ContentOf(NodeAt(node, place).value)[i])
    ensures NodeAt(node, place).None? || i >= |ContentOf(NodeAt(node, place).value)| ==> NodeAt(node, place + [i]).None?
    decreases |place|
  {
    hide ViewOfChild;
    var longer := place + [i];
    if place == [] {
      assert longer[1..] == [];
    } else {
      assert longer[1..] == place[1..] + [i];
      if place[0] < |ContentOf(node)| {
        ViewOneDeeper(ViewOfChild(view, node, place[0]), ContentOf(node)[place[0]], place[1..], i);
      }
    }
  }

  lemma EmptyPlace(node: Node)
    ensures NodeAt(node, []) == Some(node) && ViewAt(AsNode, node, []) == AsNode
  {
  }

  lemma ValueOfAt(node: Node, place: Place, i: nat, key: string)
    requires NodeAt(node, place + [i]).Some?
    ensures NodeAt(node, place).Some? && i < |ContentOf(NodeAt(node, place).value)|
    ensures var parent := NodeAt(node, place).value;
            IsValueOf(node, place + [i], key) <==>
            parent.Mapping? && i % 2 == 1 && ValueText(parent.content[i - 1]) == key
  {
    hide NodeAt, ViewAt, ViewOfChild;
    var longer := place + [i];
    assert longer[..|longer| - 1] == place && longer[|longer| - 1] == i;
    ViewOneDeeper(AsNode, node, place, i);
  }

  lemma ViewIsList(node: Node, place: Place)
    requires NodeAt(node, place).Some?
    ensures ViewAt(AsNode, node, place) == AsWalks <==> IsValueOf(node, place, "walk_files")
  {
    hide NodeAt, ViewAt, IsValueOf;
    if place == [] {
      EmptyPlace(node);
      assert !IsValueOf(node, [], "walk_files") by { NotAValue(node, "walk_files"); }
    } else {
      var outer, i := place[..|place| - 1], place[|place| - 1];
      assert place == outer + [i];
      ValueOfAt(node, outer, i, "walk_files");
      ViewOneDeeper(AsNode, node, outer, i);
    }
  }

  lemma NotAValue(node: Node, key: string)
    ensures !IsValueOf(node, [], key)
  {
  }

  /** The traversal looks at a place as a reference exactly when it is one. */
  lemma ViewIsReference(node: Node, place: Place)
    requires NodeAt(node, place).Some?
    ensures ViewAt(AsNode, node, place) == AsWalk <==> IsReference(node, place)
  {
    hide NodeAt, ViewAt, IsValueOf;
    NotAValue(node, "walk_file");
    NotAValue(node, "walk_files");
    if place == [] {
      EmptyPlace(node);
    } else {
      var list, i := place[..|place| - 1], place[|place| - 1];
      assert place == list + [i];
      ValueOfAt(node, list, i, "walk_file");
      ViewIsList(node, list);
      ViewOneDeeper(AsNode, node, list, i);
    }
  }

  /** Rewriting a draft changes exactly the scalars at reference places; every other
      node keeps its kind, its text and its number of children. */
  lemma RewriteAt(f: string -> string, node: Node, place: Place)
    ensures NodeAt(node, place).None? ==> NodeAt(Rewrite(f, node), place).None?
    ensures NodeAt(node, place).Some? ==>
              NodeAt(Rewrite(f, node), place).Some? &&
              var was, now := NodeAt(node, place).value, NodeAt(Rewrite(f, node), place).value;
              match was
              case Scalar(value) => now == Scalar(if IsReference(node, place) then f(value) else value)
              case Alias(value) => now == was
              case Mapping(content) => now.Mapping? && |now.content| == |content|
              case Sequence(content) => now.Sequence? && |now.content| == |content|
              case Document(content) => now.Document? && |now.content| == |content|
  {
    hide NodeAt, ViewAt, IsReference;
    ViewedAt(f, AsNode, node, place);
    assert Viewed(f, AsNode, node) == Rewrite(f, node);
    hide Viewed, Rewrite;
    if NodeAt(node, place).Some? {
      ViewIsReference(node, place);
      ViewedKind(f, ViewAt(AsNode, node, place), NodeAt(node, place).value);
    }
  }

  // ---------------------------------------------------------------------------
  // The list of references

  function WalksOf(view: View, node: Node): seq<string> {
    match view
    case AsNode => Walks(node)
    case AsWalk => ItemWalk(node)
    case AsWalks => if node.Sequence? then ItemWalks(node.content) else Walks(node)
  }

  lemma {:induction false} ListWalksMember(nodes: seq<Node>, v: string)
    ensures v in ListWalks(nodes) <==> exists i :: 0 <= i < |nodes| && v in Walks(nodes[i])
  {
    hide Walks;
    if nodes != [] {
      ListWalksMember(nodes[1..], v);
      if i :| 0 <= i < |nodes| && v in Walks(nodes[i]) {
        assert i > 0 ==> nodes[1..][i - 1] == nodes[i];
      }
      if j :| 0 <= j < |nodes[1..]| && v in Walks(nodes[1..][j]) {
        assert nodes[j + 1] == nodes[1..][j];
      }
    }
  }

  lemma {:induction false} ItemWalksMember(nodes: seq<Node>, v: string)
    ensures v in ItemWalks(nodes) <==> exists i :: 0 <= i < |nodes| && v in ItemWalk(nodes[i])
  {
    hide ItemWalk;
    if nodes != [] {
      ItemWalksMember(nodes[1..], v);
      if i :| 0 <= i < |nodes| && v in ItemWalk(nodes[i]) {
        assert i > 0 ==> nodes[1..][i - 1] == nodes[i];
      }
      if j :| 0 <= j < |nodes[1..]| && v in ItemWalk(nodes[1..][j]) {
        assert nodes[j + 1] == nodes[1..][j];
      }
    }
  }

  function EntryWalksAt(content: seq<Node>, i: nat): seq<string>
    requires i < |content|
  {
    if i % 2 == 1 then ValueWalks(ValueText(content[i - 1]), content[i]) else Walks(content[i])
  }

  lemma EntryWalksLater(content: seq<Node>, i: nat)
    requires 2 <= i < |content|
    ensures EntryWalksAt(content, i) == EntryWalksAt(content[2..], i - 2)
  {
    hide Walks, ValueWalks;
    assert content[i] == content[2..][i - 2] && (i % 2 == 1 ==> content[i - 1] == content[2..][i - 3]);
  }

  lemma {:induction false} EntryWalksMember(content: seq<Node>, v: string)
    ensures v in EntryWalks(content) <==> exists i: nat | i < |content| :: v in EntryWalksAt(content, i)
    decreases |content|
  {
    hide Walks, ValueWalks;
    if |content| < 2 {
      ListWalksMember(content, v);
      if |content| == 1 {
        assert EntryWalksAt(content, 0) == Walks(content[0]);
      }
    } else {
      EntryWalksMember(content[2..], v);
      assert EntryWalksAt(content, 0) == Walks(content[0]);
      assert EntryWalksAt(content, 1) == ValueWalks(ValueText(content[0]), content[1]);
      hide EntryWalksAt;
      if i: nat :| i < |content| && v in EntryWalksAt(content, i) {
        if i >= 2 {
          EntryWalksLater(content, i);
        }
      }
      if j: nat :| j < |content[2..]| && v in EntryWalksAt(content[2..], j) {
        EntryWalksLater(content, j + 2);
      }
    }
  }

  /** What the traversal collects below a node under any view. */
  lemma WalksOfKind(view: View, node: Node)
    ensures var walks := WalksOf(view, node);
            match node
            case Scalar(value) => walks == if view == AsWalk then [value] else []
            case Alias(value) => walks == []
            case Mapping(content) => walks == EntryWalks(content)
            case Sequence(content) => walks == if view == AsWalks then ItemWalks(content) else ListWalks(content)
            case Document(content) => walks == ListWalks(content)
  {
    assert ItemWalk(node) == if node.Scalar? then [node.value] else Walks(node);
  }

  lemma WalksOfChild(view: View, node: Node, i: nat)
    requires i < |ContentOf(node)|
    ensures var walks := WalksOf(ViewOfChild(view, node, i), ContentOf(node)[i]);
            if node.Mapping? then walks == EntryWalksAt(node.content, i)
            else if node.Sequence? && view == AsWalks then walks == ItemWalk(ContentOf(node)[i])
            else walks == Walks(ContentOf(node)[i])
  {
    hide Walks, ItemWalk;
  }

  /** A node's references are its own text, if it is a reference, or its children's. */
  lemma WalksOfChildren(view: View, node: Node, v: string)
    ensures v in WalksOf(view, node) <==>
            (view == AsWalk && node == Scalar(v)) ||
            exists i: nat | i < |ContentOf(node)| :: v in WalksOf(ViewOfChild(view, node, i), ContentOf(node)[i])
  {
    hide WalksOf, ViewOfChild, EntryWalksAt, Walks, ItemWalk;
    WalksOfKind(view, node);
    forall i: nat | i < |ContentOf(node)|
      ensures var walks := WalksOf(ViewOfChild(view, node, i), ContentOf(node)[i]);
              if node.Mapping? then walks == EntryWalksAt(node.content, i)
              else if node.Sequence? && view == AsWalks then walks == ItemWalk(ContentOf(node)[i])
              else walks == Walks(ContentOf(node)[i])
    {
      WalksOfChild(view, node, i);
    }
    match node
    case Scalar(value) =>
    case Alias(value) =>
    case Mapping(content) =>
      EntryWalksMember(content, v);
      if i: nat :| i < |content| && v in EntryWalksAt(content, i) {
        assert v in WalksOf(ViewOfChild(view, node, i), ContentOf(node)[i]);
      }
    case Sequence(content) =>
      ListWalksMember(content, v);
      ItemWalksMember(content, v);
      if view == AsWalks {
        if i :| 0 <= i < |content| && v in ItemWalk(content[i]) {
          assert v in WalksOf(ViewOfChild(view, node, i), ContentOf(node)[i]);
        }
      } else if i :| 0 <= i < |content| && v in Walks(content[i]) {
        assert v in WalksOf(ViewOfChild(view, node, i), ContentOf(node)[i]);
      }
    case Document(content) =>
      ListWalksMember(content, v);
      if i :| 0 <= i < |content| && v in Walks(content[i]) {
        assert v in WalksOf(ViewOfChild(view, node, i), ContentOf(node)[i]);
      }
  }

  ghost predicate FoundAt(view: View, node: Node, v: string, place: Place) {
    NodeAt(node, place) == Some(Scalar(v)) && ViewAt(view, node, place) == AsWalk
  }

  lemma {:induction false} WalksFound(view: View, node: Node, v: string)
    ensures v in WalksOf(view, node) <==> exists place :: FoundAt(view, node, v, place)
    decreases node
  {
    hide WalksOf, ViewOfChild;
    WalksOfChildren(view, node, v);
    if v in WalksOf(view, node) {
      if view == AsWalk && node == Scalar(v) {
        assert FoundAt(view, node, v, []);
      } else {
        var i: nat :| i < |ContentOf(node)| && v in WalksOf(ViewOfChild(view, node, i), ContentOf(node)[i]);
        WalksFound(ViewOfChild(view, node, i), ContentOf(node)[i], v);
        var place :| FoundAt(ViewOfChild(view, node, i), ContentOf(node)[i], v, place);
        assert ([i] + place)[1..] == place;
        assert FoundAt(view, node, v, [i] + place);
      }
    }
    if place :| FoundAt(view, node, v, place) {
      if place != [] {
        var i := place[0];
        WalksFound(ViewOfChild(view, node, i), ContentOf(node)[i], v);
        assert FoundAt(ViewOfChild(view, node, i), ContentOf(node)[i], v, place[1..]);
      }
    }
  }

  /** A text is among a draft's references exactly when it stands at a reference place. */
  lemma WalksExactly(node: Node, v: string)
    ensures v in Walks(node) <==> exists place :: NodeAt(node, place) == Some(Scalar(v)) && IsReference(node, place)
  {
    hide Walks, NodeAt, ViewAt;
    WalksFound(AsNode, node, v);
    assert WalksOf(AsNode, node) == Walks(node);
    if place :| FoundAt(AsNode, node, v, place) {
      ViewIsReference(node, place);
    }
    if place :| NodeAt(node, place) == Some(Scalar(v)) && IsReference(node, place) {
      ViewIsReference(node, place);
      assert FoundAt(AsNode, node, v, place);
    }
  }

  // ---------------------------------------------------------------------------
  // The outcome for a draft

  /** `include_path` is the first scalar under that key of the root, if there is one. */
  lemma {:induction false} LookupExactly(content: seq<Node>, key: string, i: nat)
    requires i % 2 == 0 && i + 1 < |content| && ValueText(content[i]) == key && content[i + 1].Scalar?
    requires forall j: nat | j < i && j % 2 == 0 :: !(ValueText(content[j]) == key && content[j + 1].Scalar?)
    ensures Lookup(content, key) == content[i + 1].value
    decreases |content|
  {
    if i > 0 {
      assert !(ValueText(content[0]) == key && content[0 + 1].Scalar?);
      forall j: nat | j < i - 2 && j % 2 == 0
        ensures !(ValueText(content[2..][j]) == key && content[2..][j + 1].Scalar?)
      {
        assert content[2..][j] == content[j + 2] && content[2..][j + 1] == content[j + 2 + 1];
      }
      LookupExactly(content[2..], key, i - 2);
    }
  }

  lemma {:induction false} LookupMissing(content: seq<Node>, key: string)
    requires forall j: nat | j + 1 < |content| && j % 2 == 0 :: !(ValueText(content[j]) == key && content[j + 1].Scalar?)
    ensures Lookup(content, key) == ""
    decreases |content|
  {
    if |content| >= 2 {
      assert !(ValueText(content[0]) == key && content[0 + 1].Scalar?);
      forall j: nat | j + 1 < |content[2..]| && j % 2 == 0
        ensures !(ValueText(content[2..][j]) == key && content[2..][j + 1].Scalar?)
      {
        assert content[2..][j] == content[j + 2] && content[2..][j + 1] == content[j + 2 + 1];
      }
      LookupMissing(content[2..], key);
    }
  }

  /** A reference place whose text satisfies `p`. */
  ghost predicate SomeReference(document: Node, p: string -> bool) {
    exists place :: IsReference(document, place) && NodeAt(document, place).Some? &&
      NodeAt(document, place).value.Scalar? && p(NodeAt(document, place).value.value)
  }

  function CapturedBy(lib: Library, previous: string): string -> bool {
    v => WalkedTo(lib, previous, v).captured
  }

  function ClashesWith(lib: Library, previous: string): string -> bool {
    v => WalkedTo(lib, previous, v).incompatible
  }

  /** A draft moves exactly when some reference is captured and none is incompatible; it
      is rejected when one of each is there, and else left as it is. */
  lemma RebaseExactly(lib: Library, document: Node)
    requires IsDraft(document)
    ensures var previous := PreviousRoot(document);
            var captured := SomeReference(document, CapturedBy(lib, previous));
            var incompatible := SomeReference(document, ClashesWith(lib, previous));
            var r := RebaseDocument(lib, document);
            && (r == Unchanged <==> !captured)
            && (r == Rejected <==> captured && incompatible)
            && (r.Moved? <==> captured && !incompatible)
  {
    hide Captures, Clashes, Rewrite, Walks, SomeReference, Lookup, Assign;
    ReferencesDecide(lib, PreviousRoot(document), document);
  }

  lemma ReferencesDecide(lib: Library, previous: string, document: Node)
    ensures SomeReference(document, CapturedBy(lib, previous)) <==> Captures(lib, previous, Walks(document))
    ensures SomeReference(document, ClashesWith(lib, previous)) <==> Clashes(lib, previous, Walks(document))
  {
    hide WalkedTo, Walks, SomeReference;
    var walks := Walks(document);
    SomeWalk(document, CapturedBy(lib, previous));
    SomeWalk(document, ClashesWith(lib, previous));
    if i :| 0 <= i < |walks| && WalkedTo(lib, previous, walks[i]).captured {
      assert CapturedBy(lib, previous)(walks[i]);
    }
    if i :| 0 <= i < |walks| && WalkedTo(lib, previous, walks[i]).incompatible {
      assert ClashesWith(lib, previous)(walks[i]);
    }
  }

  lemma SomeWalk(document: Node, p: string -> bool)
    ensures SomeReference(document, p) <==> exists i :: 0 <= i < |Walks(document)| && p(Walks(document)[i])
  {
    hide Walks, NodeAt, IsReference;
    if SomeReference(document, p) {
      var place :| IsReference(document, place) && NodeAt(document, place).Some? &&
                   NodeAt(document, place).value.Scalar? && p(NodeAt(document, place).value.value);
      WalksExactly(document, NodeAt(document, place).value.value);
    }
    if i :| 0 <= i < |Walks(document)| && p(Walks(document)[i]) {
      WalksExactly(document, Walks(document)[i]);
    }
  }
}
