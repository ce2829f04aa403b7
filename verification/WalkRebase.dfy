/** Rebasing a draft onto the content library's walk directory, as
    internal/api/draft_walk_rebase.go does: every walk reference becomes relative
    to that directory, and `include_path` names it. */
module WalkRebase {
  import opened Text

  /** A YAML node. A mapping's content alternates keys and values. */
  datatype Node =
    | Scalar(value: string)
    | Mapping(content: seq<Node>)
    | Sequence(content: seq<Node>)
    | Document(content: seq<Node>)
    | Alias(value: string)

  /** What the rewriter asks of paths and of the library. `rel` and `join` are
      `filepath.Rel` and `filepath.Join`; `holds` says that a walk can be read. */
  datatype Library = Library(
    walkRoot: string, holds: string -> bool,
    rel: (string, string) -> Option<string>, join: (string, string) -> string)

  const CAPTURED := "captured/"

  predicate IsAbs(path: string) {
    path != [] && path[0] == '/'
  }

  function ValueText(node: Node): string {
    if node.Scalar? || node.Alias? then node.value else ""
  }

  // ---------------------------------------------------------------------------
  // One reference

  datatype Walked = Walked(value: string, captured: bool, incompatible: bool)

  /** `normalizeLibraryWalk` */
  predicate InLibrary(lib: Library, relative: string) {
    !IsAbs(relative) && relative != ".." && !("../" <= relative) && lib.holds(relative)
  }

  /** `normalizeWalkUnderRoot` */
  function UnderRoot(lib: Library, value: string): Walked {
    match lib.rel(lib.walkRoot, value)
    case None => Walked(value, false, true)
    case Some(relative) =>
      if InLibrary(lib, relative) then Walked(relative, false, false) else Walked(value, false, true)
  }

  /** `normalizeCapturedWalkScalar`, for a draft whose include path was `previous`. */
  function WalkedTo(lib: Library, previous: string, value: string): Walked {
    if CAPTURED <= value then Walked(value, true, false)
    else if !IsAbs(value) then
      if InLibrary(lib, value) then Walked(value, false, false)
      else if !IsAbs(previous) then Walked(value, false, true)
      else Walked(lib.join(previous, value), false, true)
    else if previous == "" then UnderRoot(lib, value)
    else
      match lib.rel(previous, value)
      case None => UnderRoot(lib, value)
      case Some(relative) =>
        if CAPTURED <= relative then Walked(relative, true, false)
        else if InLibrary(lib, relative) then Walked(relative, false, false)
        else UnderRoot(lib, value)
  }

  /** A reference that needs no further rewriting. */
  predicate SettledWalk(lib: Library, value: string) {
    CAPTURED <= value || InLibrary(lib, value)
  }

  lemma WalkedIsSettled(lib: Library, previous: string, value: string)
    ensures var w := WalkedTo(lib, previous, value); !w.incompatible ==> SettledWalk(lib, w.value)
    ensures SettledWalk(lib, value) ==>
              WalkedTo(lib, previous, value) == Walked(value, CAPTURED <= value, false)
  {
  }

  /** A name the content library can be asked for, and holds. */
  predicate Held(lib: Library, name: string) {
    !("/" <= name) && name != ".." && !("../" <= name) && lib.holds(name)
  }

  /** `name` is the path of `value` relative to this directory. */
  predicate RelativeTo(lib: Library, directory: string, value: string, name: string) {
    "/" <= value && lib.rel(directory, value) == Some(name)
  }

  /** Under the new include path `name` is the file that `value` was under the old. */
  predicate SameFile(lib: Library, previous: string, value: string, name: string) {
    name == value || (previous != "" && RelativeTo(lib, previous, value, name)) || RelativeTo(lib, lib.walkRoot, value, name)
  }

  /** What one reference becomes, by what it says and by the paths of an absolute one
      relative to the previous include path and to the library. */
  lemma WalkedExactly(lib: Library, previous: string, value: string)
    ensures var w := WalkedTo(lib, previous, value);
            var fromPrevious := if previous != "" && "/" <= value then lib.rel(previous, value) else None;
            var fromRoot := if "/" <= value then lib.rel(lib.walkRoot, value) else None;
            && (w.captured <==> "captured/" <= value || (fromPrevious.Some? && "captured/" <= fromPrevious.value))
            && (w.incompatible <==>
                  && !w.captured
                  && !(!("/" <= value) && Held(lib, value))
                  && !(fromPrevious.Some? && Held(lib, fromPrevious.value))
                  && !(fromRoot.Some? && Held(lib, fromRoot.value)))
            && (!w.incompatible ==>
                  if !("/" <= value) then w.value == value
                  else if fromPrevious.Some? && ("captured/" <= fromPrevious.value || Held(lib, fromPrevious.value))
                  then Some(w.value) == fromPrevious
                  else Some(w.value) == fromRoot)
            && (!w.incompatible ==> SameFile(lib, previous, value, w.value))
  {
    assert "/" <= value <==> IsAbs(value);
    if fromPrevious :| previous != "" && lib.rel(previous, value) == Some(fromPrevious) {
      assert "/" <= fromPrevious <==> IsAbs(fromPrevious);
    }
    if fromRoot :| lib.rel(lib.walkRoot, value) == Some(fromRoot) {
      assert "/" <= fromRoot <==> IsAbs(fromRoot);
    }
    if "captured/" <= value {
      assert value[0] == 'c';
    }
  }

  // ---------------------------------------------------------------------------
  // The whole tree

  /** The document with `f` applied to every walk reference: the scalar under a
      `walk_file` key and the scalar items of a `walk_files` list, in any mapping. */
  function Rewrite(f: string -> string, node: Node): Node
    decreases node, 1
  {
    match node
    case Mapping(content) => Mapping(RewriteEntries(f, content))
    case Sequence(content) => Sequence(RewriteAll(f, content))
    case Document(content) => Document(RewriteAll(f, content))
    case _ => node
  }

  function RewriteAll(f: string -> string, nodes: seq<Node>): (r: seq<Node>)
    ensures |r| == |nodes|
    decreases nodes, 0
  {
    if nodes == [] then [] else [Rewrite(f, nodes[0])] + RewriteAll(f, nodes[1..])
  }

  function RewriteItem(f: string -> string, node: Node): Node
    decreases node, 2
  {
    if node.Scalar? then Scalar(f(node.value)) else Rewrite(f, node)
  }

  function RewriteItems(f: string -> string, nodes: seq<Node>): (r: seq<Node>)
    ensures |r| == |nodes|
    decreases nodes, 0
  {
    if nodes == [] then [] else [RewriteItem(f, nodes[0])] + RewriteItems(f, nodes[1..])
  }

  function RewriteValue(f: string -> string, key: string, value: Node): Node
    decreases value, 3
  {
    if key == "walk_file" then RewriteItem(f, value)
    else if key == "walk_files" && value.Sequence? then Sequence(RewriteItems(f, value.content))
    else Rewrite(f, value)
  }

  function RewriteEntries(f: string -> string, content: seq<Node>): (r: seq<Node>)
    ensures |r| == |content|
    decreases content, 1
  {
    if |content| < 2 then RewriteAll(f, content)
    else
      [Rewrite(f, content[0]), RewriteValue(f, ValueText(content[0]), content[1])]
      + RewriteEntries(f, content[2..])
  }

  /** The references of a document, in order. */
  function Walks(node: Node): seq<string>
    decreases node, 1
  {
    match node
    case Mapping(content) => EntryWalks(content)
    case Sequence(content) => ListWalks(content)
    case Document(content) => ListWalks(content)
    case _ => []
  }

  function ListWalks(nodes: seq<Node>): seq<string>
    decreases nodes, 0
  {
    if nodes == [] then [] else Walks(nodes[0]) + ListWalks(nodes[1..])
  }

  function ItemWalk(node: Node): seq<string>
    decreases node, 2
  {
    if node.Scalar? then [node.value] else Walks(node)
  }

  function ItemWalks(nodes: seq<Node>): seq<string>
    decreases nodes, 0
  {
    if nodes == [] then [] else ItemWalk(nodes[0]) + ItemWalks(nodes[1..])
  }

  function ValueWalks(key: string, value: Node): seq<string>
    decreases value, 3
  {
    if key == "walk_file" then ItemWalk(value)
    else if key == "walk_files" && value.Sequence? then ItemWalks(value.content)
    else Walks(value)
  }

  function EntryWalks(content: seq<Node>): seq<string>
    decreases content, 1
  {
    if |content| < 2 then ListWalks(content)
    else Walks(content[0]) + ValueWalks(ValueText(content[0]), content[1]) + EntryWalks(content[2..])
  }

  function Mapped(f: string -> string, walks: seq<string>): (r: seq<string>)
    ensures |r| == |walks|
    ensures forall i :: 0 <= i < |r| ==> r[i] == f(walks[i])
  {
    seq(|walks|, i requires 0 <= i < |walks| => f(walks[i]))
  }

  lemma MappedConcat(f: string -> string, a: seq<string>, b: seq<string>)
    ensures Mapped(f, a + b) == Mapped(f, a) + Mapped(f, b)
  {
  }

  lemma RewriteKeepsKind(f: string -> string, node: Node)
    ensures var r := Rewrite(f, node);
            r.Scalar? == node.Scalar? && r.Sequence? == node.Sequence? && ValueText(r) == ValueText(node)
  {
  }

  lemma EntryParts(f: string -> string, content: seq<Node>)
    requires |content| >= 2
    ensures var r := RewriteEntries(f, content);
            r[0] == Rewrite(f, content[0]) && r[1] == RewriteValue(f, ValueText(content[0]), content[1])
            && r[2..] == RewriteEntries(f, content[2..])
  {
  }

  /** The references of the rewritten document are the rewritten references. */
  lemma {:induction false} RewriteWalks(f: string -> string, node: Node)
    ensures Walks(Rewrite(f, node)) == Mapped(f, Walks(node))
    decreases node, 1
  {
    match node
    case Mapping(content) => RewriteEntryWalks(f, content);
    case Sequence(content) => RewriteListWalks(f, content);
    case Document(content) => RewriteListWalks(f, content);
    case _ =>
  }

  lemma {:induction false} RewriteListWalks(f: string -> string, nodes: seq<Node>)
    ensures ListWalks(RewriteAll(f, nodes)) == Mapped(f, ListWalks(nodes))
    decreases nodes, 0
  {
    if nodes != [] {
      hide Walks, Rewrite;
      RewriteWalks(f, nodes[0]);
      RewriteListWalks(f, nodes[1..]);
      MappedConcat(f, Walks(nodes[0]), ListWalks(nodes[1..]));
    }
  }

  lemma {:induction false} RewriteItemWalk(f: string -> string, node: Node)
    ensures ItemWalk(RewriteItem(f, node)) == Mapped(f, ItemWalk(node))
    decreases node, 2
  {
    hide Walks, Rewrite;
    RewriteWalks(f, node);
    RewriteKeepsKind(f, node);
  }

  lemma {:induction false} RewriteItemWalks(f: string -> string, nodes: seq<Node>)
    ensures ItemWalks(RewriteItems(f, nodes)) == Mapped(f, ItemWalks(nodes))
    decreases nodes, 0
  {
    if nodes != [] {
      hide ItemWalk, RewriteItem;
      RewriteItemWalk(f, nodes[0]);
      RewriteItemWalks(f, nodes[1..]);
      MappedConcat(f, ItemWalk(nodes[0]), ItemWalks(nodes[1..]));
    }
  }

  lemma {:induction false} RewriteValueWalks(f: string -> string, key: string, value: Node)
    ensures ValueWalks(key, RewriteValue(f, key, value)) == Mapped(f, ValueWalks(key, value))
    decreases value, 3
  {
    if key == "walk_file" {
      RewriteItemWalk(f, value);
    } else if key == "walk_files" && value.Sequence? {
      RewriteItemWalks(f, value.content);
    } else {
      RewriteWalks(f, value);
      RewriteKeepsKind(f, value);
    }
  }

  lemma {:induction false} RewriteEntryWalks(f: string -> string, content: seq<Node>)
    ensures EntryWalks(RewriteEntries(f, content)) == Mapped(f, EntryWalks(content))
    decreases content, 1
  {
    if |content| < 2 {
      RewriteListWalks(f, content);
    } else {
      hide Mapped, Walks, Rewrite, ValueWalks, RewriteValue, RewriteEntries;
      var key, text := content[0], ValueText(content[0]);
      EntryParts(f, content);
      RewriteWalks(f, key);
      RewriteKeepsKind(f, key);
      RewriteValueWalks(f, text, content[1]);
      RewriteEntryWalks(f, content[2..]);
      MappedConcat(f, Walks(key), ValueWalks(text, content[1]));
      MappedConcat(f, Walks(key) + ValueWalks(text, content[1]), EntryWalks(content[2..]));
    }
  }

  // ---------------------------------------------------------------------------
  // Rewriting twice

  /** Rewriting with `g` after `f` is rewriting with `h`, whenever `g` after `f` is `h`
      on every text. */
  lemma {:induction false} RewriteTwice(f: string -> string, g: string -> string, h: string -> string, node: Node)
    requires forall x :: g(f(x)) == h(x)
    ensures Rewrite(g, Rewrite(f, node)) == Rewrite(h, node)
    decreases node, 1
  {
    match node
    case Mapping(content) => RewriteEntriesTwice(f, g, h, content);
    case Sequence(content) => RewriteAllTwice(f, g, h, content);
    case Document(content) => RewriteAllTwice(f, g, h, content);
    case _ =>
  }

  lemma {:induction false} RewriteAllTwice(f: string -> string, g: string -> string, h: string -> string, nodes: seq<Node>)
    requires forall x :: g(f(x)) == h(x)
    ensures RewriteAll(g, RewriteAll(f, nodes)) == RewriteAll(h, nodes)
    decreases nodes, 0
  {
    if nodes != [] {
      hide Rewrite;
      RewriteTwice(f, g, h, nodes[0]);
      RewriteAllTwice(f, g, h, nodes[1..]);
    }
  }

  lemma {:induction false} RewriteItemTwice(f: string -> string, g: string -> string, h: string -> string, node: Node)
    requires forall x :: g(f(x)) == h(x)
    ensures RewriteItem(g, RewriteItem(f, node)) == RewriteItem(h, node)
    decreases node, 2
  {
    RewriteTwice(f, g, h, node);
    RewriteKeepsKind(f, node);
  }

  lemma {:induction false} RewriteItemsTwice(f: string -> string, g: string -> string, h: string -> string, nodes: seq<Node>)
    requires forall x :: g(f(x)) == h(x)
    ensures RewriteItems(g, RewriteItems(f, nodes)) == RewriteItems(h, nodes)
    decreases nodes, 0
  {
    if nodes != [] {
      hide RewriteItem;
      RewriteItemTwice(f, g, h, nodes[0]);
      RewriteItemsTwice(f, g, h, nodes[1..]);
    }
  }

  lemma {:induction false} RewriteValueTwice(f: string -> string, g: string -> string, h: string -> string, key: string, value: Node)
    requires forall x :: g(f(x)) == h(x)
    ensures RewriteValue(g, key, RewriteValue(f, key, value)) == RewriteValue(h, key, value)
    decreases value, 3
  {
    if key == "walk_file" {
      RewriteItemTwice(f, g, h, value);
    } else if key == "walk_files" && value.Sequence? {
      RewriteItemsTwice(f, g, h, value.content);
    } else {
      RewriteTwice(f, g, h, value);
      RewriteKeepsKind(f, value);
    }
  }

  lemma {:induction false} RewriteEntriesTwice(f: string -> string, g: string -> string, h: string -> string, content: seq<Node>)
    requires forall x :: g(f(x)) == h(x)
    ensures RewriteEntries(g, RewriteEntries(f, content)) == RewriteEntries(h, content)
    decreases content, 1
  {
    if |content| < 2 {
      RewriteAllTwice(f, g, h, content);
    } else {
      hide Rewrite, RewriteValue;
      var once := RewriteEntries(f, content);
      EntryParts(f, content);
      RewriteTwice(f, g, h, content[0]);
      RewriteKeepsKind(f, content[0]);
      RewriteValueTwice(f, g, h, ValueText(content[0]), content[1]);
      RewriteEntriesTwice(f, g, h, content[2..]);
      assert RewriteEntries(g, once) ==
             [Rewrite(g, once[0]), RewriteValue(g, ValueText(once[0]), once[1])] + RewriteEntries(g, once[2..]);
    }
  }

  /** The document with every reference blanked out. */
  function Blanked(node: Node): Node {
    Rewrite(_ => "", node)
  }

  /** Rewriting changes nothing but the references. */
  lemma RewriteKeepsTheRest(f: string -> string, node: Node)
    ensures Blanked(Rewrite(f, node)) == Blanked(node)
  {
    var blank := _ => "";
    RewriteTwice(f, blank, blank, node);
  }

  // ---------------------------------------------------------------------------
  // Documents whose references stay

  predicate Fixes(f: string -> string, walks: seq<string>) {
    forall i :: 0 <= i < |walks| ==> f(walks[i]) == walks[i]
  }

  lemma FixesParts(f: string -> string, a: seq<string>, b: seq<string>)
    requires Fixes(f, a + b)
    ensures Fixes(f, a) && Fixes(f, b)
  {
    assert forall i :: 0 <= i < |a| ==> (a + b)[i] == a[i];
    assert forall i :: 0 <= i < |b| ==> (a + b)[|a| + i] == b[i];
  }

  /** A document whose references `f` leaves alone is left alone. */
  lemma {:induction false} FixedStays(f: string -> string, node: Node)
    requires Fixes(f, Walks(node))
    ensures Rewrite(f, node) == node
    decreases node, 1
  {
    match node
    case Mapping(content) => FixedEntriesStay(f, content);
    case Sequence(content) => FixedListStays(f, content);
    case Document(content) => FixedListStays(f, content);
    case _ =>
  }

  lemma {:induction false} FixedListStays(f: string -> string, nodes: seq<Node>)
    requires Fixes(f, ListWalks(nodes))
    ensures RewriteAll(f, nodes) == nodes
    decreases nodes, 0
  {
    if nodes != [] {
      hide Fixes, Walks, Rewrite;
      FixesParts(f, Walks(nodes[0]), ListWalks(nodes[1..]));
      FixedStays(f, nodes[0]);
      FixedListStays(f, nodes[1..]);
    }
  }

  lemma {:induction false} FixedItemStays(f: string -> string, node: Node)
    requires Fixes(f, ItemWalk(node))
    ensures RewriteItem(f, node) == node
    decreases node, 2
  {
    if node.Scalar? {
      assert f(ItemWalk(node)[0]) == node.value;
    } else {
      FixedStays(f, node);
    }
  }

  lemma {:induction false} FixedItemsStay(f: string -> string, nodes: seq<Node>)
    requires Fixes(f, ItemWalks(nodes))
    ensures RewriteItems(f, nodes) == nodes
    decreases nodes, 0
  {
    if nodes != [] {
      hide Fixes, ItemWalk, RewriteItem;
      FixesParts(f, ItemWalk(nodes[0]), ItemWalks(nodes[1..]));
      FixedItemStays(f, nodes[0]);
      FixedItemsStay(f, nodes[1..]);
    }
  }

  lemma {:induction false} FixedValueStays(f: string -> string, key: string, value: Node)
    requires Fixes(f, ValueWalks(key, value))
    ensures RewriteValue(f, key, value) == value
    decreases value, 3
  {
    if key == "walk_file" {
      FixedItemStays(f, value);
    } else if key == "walk_files" && value.Sequence? {
      FixedItemsStay(f, value.content);
    } else {
      FixedStays(f, value);
    }
  }

  lemma {:induction false} FixedEntriesStay(f: string -> string, content: seq<Node>)
    requires Fixes(f, EntryWalks(content))
    ensures RewriteEntries(f, content) == content
    decreases content, 1
  {
    if |content| < 2 {
      FixedListStays(f, content);
    } else {
      hide Fixes, Walks, Rewrite, ValueWalks, RewriteValue;
      var key, text := content[0], ValueText(content[0]);
      FixesParts(f, Walks(key) + ValueWalks(text, content[1]), EntryWalks(content[2..]));
      FixesParts(f, Walks(key), ValueWalks(text, content[1]));
      FixedStays(f, key);
      FixedValueStays(f, text, content[1]);
      FixedEntriesStay(f, content[2..]);
    }
  }

  // ---------------------------------------------------------------------------
  // include_path

  const INCLUDE_PATH := "include_path"

  /** `mappingScalar` */
  function Lookup(content: seq<Node>, key: string): string {
    if |content| < 2 then ""
    else if ValueText(content[0]) == key && content[1].Scalar? then content[1].value
    else Lookup(content[2..], key)
  }

  /** `setMappingScalar` */
  function Assign(content: seq<Node>, key: string, value: string): (r: seq<Node>)
    ensures |r| >= |content|
  {
    if |content| < 2 then content + [Scalar(key), Scalar(value)]
    else if ValueText(content[0]) == key then [content[0], Scalar(value)] + content[2..]
    else content[..2] + Assign(content[2..], key, value)
  }

  lemma {:induction false} AssignLookup(content: seq<Node>, key: string, value: string)
    requires |content| % 2 == 0
    ensures Lookup(Assign(content, key, value), key) == value
    ensures Assign(Assign(content, key, value), key, value) == Assign(content, key, value)
    ensures |Assign(content, key, value)| % 2 == 0 && |Assign(content, key, value)| >= |content|
  {
    if |content| >= 2 && ValueText(content[0]) != key {
      AssignLookup(content[2..], key, value);
      var r := Assign(content, key, value);
      assert r[2..] == Assign(content[2..], key, value) && r[..2] == content[..2];
    } else if |content| >= 2 {
      var r := Assign(content, key, value);
      assert r[2..] == content[2..];
    }
  }

  predicate Settled(lib: Library, walks: seq<string>) {
    forall i :: 0 <= i < |walks| ==> SettledWalk(lib, walks[i])
  }

  lemma SettledParts(lib: Library, a: seq<string>, b: seq<string>)
    ensures Settled(lib, a + b) <==> Settled(lib, a) && Settled(lib, b)
  {
    if Settled(lib, a + b) {
      assert forall i :: 0 <= i < |a| ==> (a + b)[i] == a[i];
      assert forall i :: 0 <= i < |b| ==> (a + b)[|a| + i] == b[i];
    }
  }

  lemma NoWalksInPath(key: string, value: string)
    requires key == INCLUDE_PATH
    ensures ValueWalks(key, Scalar(value)) == []
  {
  }

  /** Setting the include path adds no reference. */
  lemma {:induction false} AssignKeepsSettled(lib: Library, content: seq<Node>, value: string)
    requires |content| % 2 == 0 && Settled(lib, EntryWalks(content))
    ensures Settled(lib, EntryWalks(Assign(content, INCLUDE_PATH, value)))
    decreases |content|
  {
    var r := Assign(content, INCLUDE_PATH, value);
    if |content| < 2 {
      assert r == [Scalar(INCLUDE_PATH), Scalar(value)] && r[2..] == [];
      NoWalksInPath(INCLUDE_PATH, value);
      assert EntryWalks(r) == Walks(r[0]) + ValueWalks(INCLUDE_PATH, r[1]) + EntryWalks(r[2..]);
    } else {
      hide Settled, Walks;
      var text := ValueText(content[0]);
      assert EntryWalks(content) == Walks(content[0]) + ValueWalks(text, content[1]) + EntryWalks(content[2..]);
      var front := Walks(content[0]) + ValueWalks(text, content[1]);
      SettledParts(lib, front, EntryWalks(content[2..]));
      SettledParts(lib, Walks(content[0]), ValueWalks(text, content[1]));
      if text == INCLUDE_PATH {
        assert r[0] == content[0] && r[1] == Scalar(value) && r[2..] == content[2..];
        NoWalksInPath(text, value);
        assert EntryWalks(r) == Walks(content[0]) + EntryWalks(content[2..]);
        SettledParts(lib, Walks(content[0]), EntryWalks(content[2..]));
      } else {
        AssignKeepsSettled(lib, content[2..], value);
        assert r[2..] == Assign(content[2..], INCLUDE_PATH, value);
        SettledParts(lib, front, EntryWalks(r[2..]));
      }
    }
  }

  // ---------------------------------------------------------------------------
  // The traversal

  predicate Captures(lib: Library, previous: string, walks: seq<string>) {
    exists i :: 0 <= i < |walks| && WalkedTo(lib, previous, walks[i]).captured
  }

  predicate Clashes(lib: Library, previous: string, walks: seq<string>) {
    exists i :: 0 <= i < |walks| && WalkedTo(lib, previous, walks[i]).incompatible
  }

  lemma CapturesParts(lib: Library, previous: string, a: seq<string>, b: seq<string>)
    ensures Captures(lib, previous, a + b) <==> Captures(lib, previous, a) || Captures(lib, previous, b)
    ensures Clashes(lib, previous, a + b) <==> Clashes(lib, previous, a) || Clashes(lib, previous, b)
  {
    assert forall i :: 0 <= i < |a| ==> (a + b)[i] == a[i];
    assert forall i :: 0 <= i < |b| ==> (a + b)[|a| + i] == b[i];
    if Captures(lib, previous, b) {
      var i :| 0 <= i < |b| && WalkedTo(lib, previous, b[i]).captured;
      assert WalkedTo(lib, previous, (a + b)[|a| + i]).captured;
    }
    if Clashes(lib, previous, b) {
      var i :| 0 <= i < |b| && WalkedTo(lib, previous, b[i]).incompatible;
      assert WalkedTo(lib, previous, (a + b)[|a| + i]).incompatible;
    }
  }

  function Walker(lib: Library, previous: string): string -> string {
    value => WalkedTo(lib, previous, value).value
  }

  /** `walkRebaseState`: the two flags the traversal raises. */
  class RebaseState {
    const previousRoot: string
    const library: Library
    var foundCaptured: bool
    var hasIncompatibleWalk: bool

    constructor (library: Library, previousRoot: string)
      ensures this.library == library && this.previousRoot == previousRoot
      ensures !foundCaptured && !hasIncompatibleWalk
    {
      this.library, this.previousRoot := library, previousRoot;
      foundCaptured, hasIncompatibleWalk := false, false;
    }

    /** The flags now account for these references as well. */
    twostate predicate Raised(walks: seq<string>)
      reads this
    {
      && foundCaptured == (old(foundCaptured) || Captures(library, previousRoot, walks))
      && hasIncompatibleWalk == (old(hasIncompatibleWalk) || Clashes(library, previousRoot, walks))
    }

    /** `normalizeCapturedWalkScalar` */
    method NormalizeScalar(value: string) returns (r: string)
      modifies this
      ensures r == Walker(library, previousRoot)(value) && Raised([value])
    {
      var w := WalkedTo(library, previousRoot, value);
      assert [value][0] == value;
      foundCaptured := foundCaptured || w.captured;
      hasIncompatibleWalk := hasIncompatibleWalk || w.incompatible;
      r := w.value;
    }

    /** `normalizeCapturedWalks` and `normalizeCapturedMapping` */
    method Normalize(node: Node) returns (r: Node)
      modifies this
      ensures r == Rewrite(Walker(library, previousRoot), node) && Raised(Walks(node))
      decreases node, 1
    {
      match node
      case Mapping(content) =>
        var entries := NormalizeEntries(content);
        r := Mapping(entries);
      case Sequence(content) =>
        var all := NormalizeAll(content);
        r := Sequence(all);
      case Document(content) =>
        var all := NormalizeAll(content);
        r := Document(all);
      case _ => r := node;
    }

    method NormalizeAll(nodes: seq<Node>) returns (r: seq<Node>)
      modifies this
      ensures r == RewriteAll(Walker(library, previousRoot), nodes) && Raised(ListWalks(nodes))
      decreases nodes, 0
    {
      if nodes == [] {
        return [];
      }
      hide WalkedTo, Walks, Rewrite, Captures, Clashes;
      var first := Normalize(nodes[0]);
      var rest := NormalizeAll(nodes[1..]);
      CapturesParts(library, previousRoot, Walks(nodes[0]), ListWalks(nodes[1..]));
      r := [first] + rest;
    }

    method NormalizeItem(node: Node) returns (r: Node)
      modifies this
      ensures r == RewriteItem(Walker(library, previousRoot), node) && Raised(ItemWalk(node))
      decreases node, 2
    {
      if node.Scalar? {
        var value := NormalizeScalar(node.value);
        r := Scalar(value);
      } else {
        r := Normalize(node);
      }
    }

    method NormalizeItems(nodes: seq<Node>) returns (r: seq<Node>)
      modifies this
      ensures r == RewriteItems(Walker(library, previousRoot), nodes) && Raised(ItemWalks(nodes))
      decreases nodes, 0
    {
      if nodes == [] {
        return [];
      }
      hide WalkedTo, ItemWalk, RewriteItem, Captures, Clashes;
      var first := NormalizeItem(nodes[0]);
      var rest := NormalizeItems(nodes[1..]);
      CapturesParts(library, previousRoot, ItemWalk(nodes[0]), ItemWalks(nodes[1..]));
      r := [first] + rest;
    }

    method NormalizeValue(key: string, value: Node) returns (r: Node)
      modifies this
      ensures r == RewriteValue(Walker(library, previousRoot), key, value) && Raised(ValueWalks(key, value))
      decreases value, 3
    {
      if key == "walk_file" {
        r := NormalizeItem(value);
      } else if key == "walk_files" && value.Sequence? {
        var items := NormalizeItems(value.content);
        r := Sequence(items);
      } else {
        r := Normalize(value);
      }
    }

    method NormalizeEntries(content: seq<Node>) returns (r: seq<Node>)
      modifies this
      ensures r == RewriteEntries(Walker(library, previousRoot), content) && Raised(EntryWalks(content))
      decreases content, 1
    {
      if |content| < 2 {
        r := NormalizeAll(content);
        return;
      }
      hide WalkedTo, Walks, Rewrite, ValueWalks, RewriteValue, Captures, Clashes;
      var text := ValueText(content[0]);
      var key := Normalize(content[0]);
      var value := NormalizeValue(text, content[1]);
      var rest := NormalizeEntries(content[2..]);
      CapturesParts(library, previousRoot, Walks(content[0]), ValueWalks(text, content[1]));
      CapturesParts(library, previousRoot, Walks(content[0]) + ValueWalks(text, content[1]), EntryWalks(content[2..]));
      r := [key, value] + rest;
    }
  }

  // ---------------------------------------------------------------------------
  // The draft

  datatype Rebased = Unchanged | Moved(document: Node) | Rejected

  /** The drafts the rewriter looks into: one document whose root is a mapping. */
  predicate IsDraft(document: Node) {
    document.Document? && |document.content| == 1 && document.content[0].Mapping?
  }

  /** Keys and values of the root come in pairs, as a YAML parser delivers them. */
  predicate PairedRoot(document: Node)
    requires IsDraft(document)
  {
    |document.content[0].content| % 2 == 0
  }

  function PreviousRoot(document: Node): string
    requires IsDraft(document)
  {
    Lookup(document.content[0].content, INCLUDE_PATH)
  }

  function RebaseDocument(lib: Library, document: Node): Rebased {
    if !IsDraft(document) then Unchanged
    else
      var previous := PreviousRoot(document);
      if !Captures(lib, previous, Walks(document)) then Unchanged
      else if Clashes(lib, previous, Walks(document)) then Rejected
      else
        var root := Rewrite(Walker(lib, previous), document.content[0]);
        Moved(Document([Mapping(Assign(root.content, INCLUDE_PATH, lib.walkRoot))]))
  }

  /** `rebaseCapturedDraftContent` on the parsed draft. */
  method RebaseDraft(lib: Library, document: Node) returns (r: Rebased)
    ensures r == RebaseDocument(lib, document)
  {
    if !IsDraft(document) {
      return Unchanged;
    }
    hide WalkedTo, Captures, Clashes, Assign, Rewrite, Lookup, Walks;
    RewriteRoot(Walker(lib, PreviousRoot(document)), document.content[0]);
    assert document == Document([document.content[0]]);
    var state := new RebaseState(lib, PreviousRoot(document));
    var rewritten := state.Normalize(document);
    if !state.foundCaptured {
      return Unchanged;
    }
    if state.hasIncompatibleWalk {
      return Rejected;
    }
    var root := rewritten.content[0];
    r := Moved(Document([Mapping(Assign(root.content, INCLUDE_PATH, lib.walkRoot))]));
  }

  lemma RewriteRoot(f: string -> string, root: Node)
    ensures Rewrite(f, Document([root])) == Document([Rewrite(f, root)])
    ensures root.Mapping? ==> Rewrite(f, root).Mapping? && |Rewrite(f, root).content| == |root.content|
  {
    assert RewriteAll(f, [root]) == [Rewrite(f, root)] + RewriteAll(f, [][..]);
  }

  lemma RootWalks(root: Node)
    ensures Walks(Document([root])) == Walks(root)
  {
    assert ListWalks([root]) == Walks(root) + ListWalks([][..]);
    assert Walks(root) + [] == Walks(root);
  }

  lemma CompatibleBecomesSettled(lib: Library, previous: string, node: Node)
    requires !Clashes(lib, previous, Walks(node))
    ensures Settled(lib, Walks(Rewrite(Walker(lib, previous), node)))
  {
    var f := Walker(lib, previous);
    RewriteWalks(f, node);
    var walks := Walks(node);
    forall i | 0 <= i < |walks| ensures SettledWalk(lib, Mapped(f, walks)[i]) {
      WalkedIsSettled(lib, previous, walks[i]);
    }
  }

  /** Every reference of a rebased draft is a captured walk or a walk the library
      holds, and its include path is the library's walk directory. */
  lemma RebasedIsSettled(lib: Library, document: Node)
    requires RebaseDocument(lib, document).Moved? && PairedRoot(document)
    ensures var r := RebaseDocument(lib, document).document;
            IsDraft(r) && PairedRoot(r) && Settled(lib, Walks(r)) && PreviousRoot(r) == lib.walkRoot
  {
    hide Captures, Clashes, WalkedTo, Assign, Rewrite, Lookup, Settled;
    var root := document.content[0];
    assert document == Document([root]);
    RootWalks(root);
    RewriteRoot(Walker(lib, PreviousRoot(document)), root);
    CompatibleBecomesSettled(lib, PreviousRoot(document), root);
    var content := Rewrite(Walker(lib, PreviousRoot(document)), root).content;
    AssignKeepsSettled(lib, content, lib.walkRoot);
    AssignLookup(content, INCLUDE_PATH, lib.walkRoot);
    RootWalks(Mapping(Assign(content, INCLUDE_PATH, lib.walkRoot)));
  }

  lemma SettledIsFixed(lib: Library, previous: string, walks: seq<string>)
    requires Settled(lib, walks)
    ensures !Clashes(lib, previous, walks) && Fixes(Walker(lib, previous), walks)
  {
    forall i | 0 <= i < |walks|
      ensures !WalkedTo(lib, previous, walks[i]).incompatible && Walker(lib, previous)(walks[i]) == walks[i]
    {
      WalkedIsSettled(lib, previous, walks[i]);
    }
  }

  lemma SettledRootIsFixed(lib: Library, previous: string, root: Node)
    requires Settled(lib, Walks(root))
    ensures Rewrite(Walker(lib, previous), root) == root && !Clashes(lib, previous, Walks(root))
  {
    hide Rewrite, Walks, Settled, Clashes;
    SettledIsFixed(lib, previous, Walks(root));
    FixedStays(Walker(lib, previous), root);
  }

  /** A settled draft whose include path is in place stays as it is. */
  lemma SettledDraftStays(lib: Library, content: seq<Node>)
    requires Settled(lib, Walks(Mapping(content)))
    requires Assign(content, INCLUDE_PATH, lib.walkRoot) == content
    ensures var draft := Document([Mapping(content)]);
            RebaseDocument(lib, draft) == Unchanged || RebaseDocument(lib, draft) == Moved(draft)
  {
    hide Captures, Clashes, Assign, Rewrite, Lookup, Walks, Settled, Walker;
    var root := Mapping(content);
    RootWalks(root);
    SettledRootIsFixed(lib, PreviousRoot(Document([root])), root);
  }

  /** Rebasing a rebased draft changes nothing and never fails. */
  lemma RebaseIsIdempotent(lib: Library, document: Node)
    requires RebaseDocument(lib, document).Moved? && PairedRoot(document)
    ensures var r := RebaseDocument(lib, document).document;
            RebaseDocument(lib, r) == Unchanged || RebaseDocument(lib, r) == Moved(r)
  {
    hide Captures, Clashes, Assign, Rewrite, Lookup, Walks, Settled, Walker;
    var root := document.content[0];
    var rewritten := Rewrite(Walker(lib, PreviousRoot(document)), root);
    RewriteRoot(Walker(lib, PreviousRoot(document)), root);
    var content := Assign(rewritten.content, INCLUDE_PATH, lib.walkRoot);
    assert RebaseDocument(lib, document).document == Document([Mapping(content)]);
    RebasedIsSettled(lib, document);
    RootWalks(Mapping(content));
    AssignLookup(rewritten.content, INCLUDE_PATH, lib.walkRoot);
    SettledDraftStays(lib, content);
  }

  /** Apart from the references, the rebased root is the old root with its include
      path set. */
  lemma RebaseKeepsTheRest(lib: Library, document: Node)
    requires RebaseDocument(lib, document).Moved?
    ensures var r := RebaseDocument(lib, document).document;
            exists root :: Blanked(root) == Blanked(document.content[0]) && root.Mapping?
                        && r == Document([Mapping(Assign(root.content, INCLUDE_PATH, lib.walkRoot))])
  {
    hide Captures, Clashes, WalkedTo, Assign, Rewrite, Lookup, Walks, Blanked;
    var f := Walker(lib, PreviousRoot(document));
    RewriteRoot(f, document.content[0]);
    RewriteKeepsTheRest(f, document.content[0]);
    var root := Rewrite(f, document.content[0]);
    assert root.Mapping?;
  }

  /** Setting the include path touches one value, or adds one entry at the end. */
  lemma {:induction false} AssignTouchesOneValue(content: seq<Node>, key: string, value: string, i: nat)
    requires i < |content| && |content| % 2 == 0
    ensures var r := Assign(content, key, value);
            r[i] == content[i] ||
            (i % 2 == 1 && ValueText(content[i - 1]) == key && r[i] == Scalar(value) &&
             forall j :: 0 <= j < i - 1 && j % 2 == 0 ==> ValueText(content[j]) != key)
    decreases |content|
  {
    var r := Assign(content, key, value);
    if ValueText(content[0]) == key {
      assert forall j :: 2 <= j < |content| ==> r[j] == content[2..][j - 2];
    } else if i >= 2 {
      AssignTouchesOneValue(content[2..], key, value, i - 2);
      assert r[i] == Assign(content[2..], key, value)[i - 2];
      assert forall j :: 2 <= j < |content| ==> content[j] == content[2..][j - 2];
    }
  }

  // ---------------------------------------------------------------------------
  // The references of a rebased draft

  /** The references below the value that setting `key` replaces. */
  function ReplacedWalks(content: seq<Node>, key: string): seq<string> {
    if |content| < 2 then []
    else if ValueText(content[0]) == key then ValueWalks(key, content[1])
    else ReplacedWalks(content[2..], key)
  }

  lemma {:induction false} AssignedWalks(content: seq<Node>, value: string)
    requires |content| % 2 == 0
    ensures var after, replaced := EntryWalks(Assign(content, INCLUDE_PATH, value)), ReplacedWalks(content, INCLUDE_PATH);
            |after| + |replaced| == |EntryWalks(content)| && (replaced == [] ==> after == EntryWalks(content))
    decreases |content|
  {
    var r := Assign(content, INCLUDE_PATH, value);
    if |content| < 2 {
      assert r == [Scalar(INCLUDE_PATH), Scalar(value)] && r[2..] == [] && content == [];
      NoWalksInPath(INCLUDE_PATH, value);
      assert EntryWalks(r) == Walks(r[0]) + ValueWalks(INCLUDE_PATH, r[1]) + EntryWalks(r[2..]);
    } else if ValueText(content[0]) == INCLUDE_PATH {
      assert r[0] == content[0] && r[1] == Scalar(value) && r[2..] == content[2..];
      NoWalksInPath(INCLUDE_PATH, value);
    } else {
      AssignedWalks(content[2..], value);
      assert r[2..] == Assign(content[2..], INCLUDE_PATH, value) && r[..2] == content[..2];
      assert r[0] == content[0] && r[1] == content[1];
    }
  }

  lemma {:induction false} RewrittenReplacedWalks(f: string -> string, content: seq<Node>, key: string)
    requires |content| % 2 == 0
    ensures ReplacedWalks(RewriteEntries(f, content), key) == Mapped(f, ReplacedWalks(content, key))
    decreases |content|
  {
    if |content| >= 2 {
      hide ValueWalks, RewriteValue, Walks, Rewrite;
      EntryParts(f, content);
      RewriteValueWalks(f, ValueText(content[0]), content[1]);
      RewrittenReplacedWalks(f, content[2..], key);
    }
  }

  /** The draft's references come back one by one, in order, each naming the file it
      named before. None is added, and exactly those written below the value of the
      include path, which is replaced, are lost. */
  lemma RebasedNamesSameFiles(lib: Library, document: Node)
    requires RebaseDocument(lib, document).Moved? && PairedRoot(document)
    ensures var before, after := Walks(document), Walks(RebaseDocument(lib, document).document);
            var replaced := ReplacedWalks(document.content[0].content, "include_path");
            && |after| == |before| - |replaced|
            && (replaced == [] ==>
                  forall i :: 0 <= i < |before| ==> SameFile(lib, PreviousRoot(document), before[i], after[i]))
  {
    hide Assign, Rewrite, Lookup, Walks, SameFile, Captures, ReplacedWalks;
    var previous := PreviousRoot(document);
    var f := Walker(lib, previous);
    var root := document.content[0];
    assert document == Document([root]);
    RootWalks(root);
    RewriteRoot(f, root);
    RewriteWalks(f, root);
    RewrittenRoot(f, root);
    var content := Rewrite(f, root).content;
    RewrittenReplacedWalks(f, root.content, INCLUDE_PATH);
    AssignedWalks(content, lib.walkRoot);
    var moved := Mapping(Assign(content, INCLUDE_PATH, lib.walkRoot));
    RootWalks(moved);
    MappingWalks(Assign(content, INCLUDE_PATH, lib.walkRoot));
    MappingWalks(content);
    var before := Walks(document);
    forall i | 0 <= i < |before| ensures SameFile(lib, previous, before[i], Mapped(f, before)[i]) {
      WalkedExactly(lib, previous, before[i]);
      assert !WalkedTo(lib, previous, before[i]).incompatible;
    }
  }

  lemma RewrittenRoot(f: string -> string, root: Node)
    requires root.Mapping?
    ensures Rewrite(f, root) == Mapping(RewriteEntries(f, root.content))
  {
  }

  lemma MappingWalks(content: seq<Node>)
    ensures Walks(Mapping(content)) == EntryWalks(content)
  {
  }
}
