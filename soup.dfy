/** The parsed HTML tree and the BeautifulSoup queries the scraper uses on it:
    `get_text(separator=" ", strip=True)`, `find_all`, `find(id=...)` and
    the removal of `script`, `style` and `noscript` subtrees. Turning an HTML
    string into a tree is not part of this model: a tree is given. */
module Soup {
  import opened Wrappers
  import opened PyString

  /** A node of the parsed tree: an element with its tag name (as the parser
      stored it), its `id` attribute if any, and its children; or a text node. */
  datatype Node =
    | Tag(name: string, id: Option<string>, children: seq<Node>)
    | TextNode(text: string)

  /** A parsed page: the top-level nodes under BeautifulSoup's root. */
  type Document = seq<Node>

  // ---------------------------------------------------------------------
  // Queries. Each is given for a sequence of sibling nodes and for one node.

  /** Every text node's string, in document order. This is the walk
      `get_text` makes over the tree it is called on. */
  function AllStrings(nodes: seq<Node>): seq<string>
    decreases nodes
  {
    if nodes == [] then [] else NodeStrings(nodes[0]) + AllStrings(nodes[1..])
  }

  function NodeStrings(n: Node): seq<string>
    decreases n
  {
    match n
    case TextNode(t) => [t]
    case Tag(_, _, cs) => AllStrings(cs)
  }

  /** `soup.get_text(separator=" ", strip=True)`. */
  function GetText(nodes: seq<Node>): (r: string)
    ensures IsStripped(r)
  {
    JoinSpaceStripped(StrippedStrings(AllStrings(nodes)));
    JoinSpace(StrippedStrings(AllStrings(nodes)))
  }

  /** `soup.find_all(names)` (also written `soup(names)`): every element whose
      tag name is one of `names`, in document order, nested ones included. */
  function FindAll(nodes: seq<Node>, names: set<string>): (r: seq<Node>)
    ensures forall k | 0 <= k < |r| :: r[k].Tag? && r[k].name in names
    decreases nodes
  {
    if nodes == [] then [] else NodeFindAll(nodes[0], names) + FindAll(nodes[1..], names)
  }

  function NodeFindAll(n: Node, names: set<string>): (r: seq<Node>)
    ensures forall k | 0 <= k < |r| :: r[k].Tag? && r[k].name in names
    decreases n
  {
    match n
    case TextNode(_) => []
    case Tag(name, _, cs) => (if name in names then [n] else []) + FindAll(cs, names)
  }

  /** `soup.find(id=value)`: the first element, in document order, whose
      `id` attribute is `value`. */
  function FindById(nodes: seq<Node>, value: string): (r: Option<Node>)
    ensures r.Some? ==> r.value.Tag? && r.value.id == Some(value)
    decreases nodes
  {
    if nodes == [] then None
    else
      match NodeFindById(nodes[0], value)
      case Some(found) => Some(found)
      case None => FindById(nodes[1..], value)
  }

  function NodeFindById(n: Node, value: string): (r: Option<Node>)
    ensures r.Some? ==> r.value.Tag? && r.value.id == Some(value)
    decreases n
  {
    match n
    case TextNode(_) => None
    case Tag(_, id, cs) => if id == Some(value) then Some(n) else FindById(cs, value)
  }

  /** The tag names whose subtrees `get_visible_text` removes. */
  const HiddenNames: set<string> := {"script", "style", "noscript"}

  /** The tree after `tag.decompose()` has been called on every element
      `soup(["script", "style", "noscript"])` found: those subtrees are gone
      and everything else is kept in place. */
  function Decompose(nodes: seq<Node>): (r: seq<Node>)
    ensures forall k | 0 <= k < |r| :: r[k].Tag? ==> r[k].name !in HiddenNames
    decreases nodes
  {
    if nodes == [] then [] else DecomposeNode(nodes[0]) + Decompose(nodes[1..])
  }

  function DecomposeNode(n: Node): (r: seq<Node>)
    ensures forall k | 0 <= k < |r| :: r[k].Tag? ==> r[k].name !in HiddenNames
    decreases n
  {
    match n
    case TextNode(_) => [n]
    case Tag(name, id, cs) => if name in HiddenNames then [] else [Tag(name, id, Decompose(cs))]
  }

  /** `get_visible_text` on a parsed page: the text left once the hidden
      subtrees are removed, stripped, non-empty pieces joined by one space. */
  function VisibleText(doc: Document): (r: string)
    ensures IsStripped(r)
  {
    GetText(Decompose(doc))
  }

  // ---------------------------------------------------------------------
  // Reference descriptions of the two searches: the list of all elements in
  // document order, filtered by name or searched for the first id match.

  /** Every element of the tree, nested ones included, in document order
      (an element comes before its descendants). */
  function Elements(nodes: seq<Node>): seq<Node>
    decreases nodes
  {
    if nodes == [] then [] else NodeElements(nodes[0]) + Elements(nodes[1..])
  }

  function NodeElements(n: Node): seq<Node>
    decreases n
  {
    match n
    case TextNode(_) => []
    case Tag(_, _, cs) => [n] + Elements(cs)
  }

  /** The elements of `es` whose tag name is one of `names`, order kept. */
  function Named(es: seq<Node>, names: set<string>): (r: seq<Node>)
    ensures forall x :: x in r <==> x in es && x.Tag? && x.name in names
  {
    if es == [] then []
    else
      assert forall x :: x in es <==> x == es[0] || x in es[1..];
      (if es[0].Tag? && es[0].name in names then [es[0]] else []) + Named(es[1..], names)
  }

  /** `n` is an element whose `id` attribute is `value`. */
  predicate HasId(n: Node, value: string) {
    n.Tag? && n.id == Some(value)
  }

  /** The first node of `es` with that id, if there is one. */
  function FirstWithId(es: seq<Node>, value: string): (r: Option<Node>)
    ensures r.None? <==> forall k | 0 <= k < |es| :: !HasId(es[k], value)
    ensures r.Some? ==> exists k | 0 <= k < |es| ::
              es[k] == r.value && HasId(es[k], value) && forall j | 0 <= j < k :: !HasId(es[j], value)
  {
    if es == [] then None
    else if HasId(es[0], value) then Some(es[0])
    else
      var r := FirstWithId(es[1..], value);
      assert forall k | 1 <= k < |es| :: es[k] == es[1..][k - 1];
      if r.Some? then
        var k :| 0 <= k < |es[1..]| && es[1..][k] == r.value && HasId(es[1..][k], value)
                 && forall j | 0 <= j < k :: !HasId(es[1..][j], value);
        assert es[k + 1] == r.value && forall j | 0 <= j < k + 1 :: !HasId(es[j], value);
        r
      else r
  }

  // ---------------------------------------------------------------------
  // Queries distribute over concatenation of siblings.

  lemma {:induction false} AllStringsAppend(a: seq<Node>, b: seq<Node>)
    ensures AllStrings(a + b) == AllStrings(a) + AllStrings(b)
  {
    if a == [] {
      assert a + b == b;
    } else {
      assert (a + b)[0] == a[0];
      assert (a + b)[1..] == a[1..] + b;
      AllStringsAppend(a[1..], b);
    }
  }

  lemma {:induction false} FindAllAppend(a: seq<Node>, b: seq<Node>, names: set<string>)
    ensures FindAll(a + b, names) == FindAll(a, names) + FindAll(b, names)
  {
    if a == [] {
      assert a + b == b;
    } else {
      assert (a + b)[0] == a[0];
      assert (a + b)[1..] == a[1..] + b;
      FindAllAppend(a[1..], b, names);
    }
  }

  lemma {:induction false} DecomposeAppend(a: seq<Node>, b: seq<Node>)
    ensures Decompose(a + b) == Decompose(a) + Decompose(b)
  {
    if a == [] {
      assert a + b == b;
    } else {
      assert (a + b)[0] == a[0];
      assert (a + b)[1..] == a[1..] + b;
      DecomposeAppend(a[1..], b);
    }
  }

  lemma Singleton(n: Node)
    ensures AllStrings([n]) == NodeStrings(n)
    ensures FindAll([n], HiddenNames) == NodeFindAll(n, HiddenNames)
    ensures Decompose([n]) == DecomposeNode(n)
  {
    assert [n][1..] == [];
  }

  lemma {:induction false} NamedAppend(a: seq<Node>, b: seq<Node>, names: set<string>)
    ensures Named(a + b, names) == Named(a, names) + Named(b, names)
  {
    if a == [] {
      assert a + b == b;
    } else {
      assert (a + b)[0] == a[0];
      assert (a + b)[1..] == a[1..] + b;
      NamedAppend(a[1..], b, names);
    }
  }

  lemma {:induction false} FirstWithIdAppend(a: seq<Node>, b: seq<Node>, value: string)
    ensures FirstWithId(a + b, value) == if FirstWithId(a, value).Some? then FirstWithId(a, value) else FirstWithId(b, value)
  {
    if a == [] {
      assert a + b == b;
    } else {
      assert (a + b)[0] == a[0];
      assert (a + b)[1..] == a[1..] + b;
      FirstWithIdAppend(a[1..], b, value);
    }
  }

  /** `find_all` is sound and complete: it returns exactly the elements of
      the tree, at any depth, whose tag name is one of `names`, in document
      order. */
  lemma {:induction false} FindAllIsNamed(nodes: seq<Node>, names: set<string>)
    ensures FindAll(nodes, names) == Named(Elements(nodes), names)
    decreases nodes
  {
    if nodes != [] {
      NodeFindAllIsNamed(nodes[0], names);
      FindAllIsNamed(nodes[1..], names);
      NamedAppend(NodeElements(nodes[0]), Elements(nodes[1..]), names);
    }
  }

  lemma {:induction false} NodeFindAllIsNamed(n: Node, names: set<string>)
    ensures NodeFindAll(n, names) == Named(NodeElements(n), names)
    decreases n
  {
    match n
    case TextNode(_) =>
    case Tag(_, _, cs) =>
      FindAllIsNamed(cs, names);
      NamedAppend([n], Elements(cs), names);
      assert [n][1..] == [];
  }

  /** `find(id=value)` returns the first element of the tree, in document
      order, whose id is `value`, and nothing when no element has it. */
  lemma {:induction false} FindByIdIsFirst(nodes: seq<Node>, value: string)
    ensures FindById(nodes, value) == FirstWithId(Elements(nodes), value)
    decreases nodes
  {
    if nodes != [] {
      NodeFindByIdIsFirst(nodes[0], value);
      FindByIdIsFirst(nodes[1..], value);
      FirstWithIdAppend(NodeElements(nodes[0]), Elements(nodes[1..]), value);
    }
  }

  lemma {:induction false} NodeFindByIdIsFirst(n: Node, value: string)
    ensures NodeFindById(n, value) == FirstWithId(NodeElements(n), value)
    decreases n
  {
    match n
    case TextNode(_) =>
    case Tag(_, _, cs) =>
      FindByIdIsFirst(cs, value);
      var es := [n] + Elements(cs);
      assert es[0] == n && es[1..] == Elements(cs);
  }

  /** In particular `find(id=value)` finds nothing exactly when no element
      of the tree, at any depth, has that id. */
  lemma FindByIdNone(nodes: seq<Node>, value: string)
    ensures FindById(nodes, value).None? <==>
              forall k | 0 <= k < |Elements(nodes)| :: !HasId(Elements(nodes)[k], value)
  {
    FindByIdIsFirst(nodes, value);
  }

  // ---------------------------------------------------------------------
  // What the removal of hidden subtrees achieves.

  /** After the removal no `script`, `style` or `noscript` element is left:
      `soup(["script", "style", "noscript"])` would find nothing. */
  lemma {:induction false} DecomposeLeavesNoHidden(nodes: seq<Node>)
    ensures FindAll(Decompose(nodes), HiddenNames) == []
    decreases nodes
  {
    if nodes != [] {
      DecomposeNodeLeavesNoHidden(nodes[0]);
      DecomposeLeavesNoHidden(nodes[1..]);
      FindAllAppend(DecomposeNode(nodes[0]), Decompose(nodes[1..]), HiddenNames);
    }
  }

  lemma {:induction false} DecomposeNodeLeavesNoHidden(n: Node)
    ensures FindAll(DecomposeNode(n), HiddenNames) == []
    decreases n
  {
    match n
    case TextNode(_) =>
      Singleton(n);
    case Tag(name, id, cs) =>
      if name !in HiddenNames {
        DecomposeLeavesNoHidden(cs);
        Singleton(Tag(name, id, Decompose(cs)));
      }
  }

  /** Removing the hidden subtrees a second time removes nothing more. */
  lemma {:induction false} DecomposeIdempotent(nodes: seq<Node>)
    ensures Decompose(Decompose(nodes)) == Decompose(nodes)
    decreases nodes
  {
    if nodes != [] {
      DecomposeNodeIdempotent(nodes[0]);
      DecomposeIdempotent(nodes[1..]);
      DecomposeAppend(DecomposeNode(nodes[0]), Decompose(nodes[1..]));
    }
  }

  lemma {:induction false} DecomposeNodeIdempotent(n: Node)
    ensures Decompose(DecomposeNode(n)) == DecomposeNode(n)
    decreases n
  {
    match n
    case TextNode(_) =>
      Singleton(n);
    case Tag(name, id, cs) =>
      if name !in HiddenNames {
        DecomposeIdempotent(cs);
        Singleton(Tag(name, id, Decompose(cs)));
      }
  }

  /** Adding a `script`, `style` or `noscript` element anywhere among the
      top-level nodes, whatever it contains, leaves the visible text as it was. */
  lemma HiddenElementChangesNothing(a: Document, name: string, id: Option<string>, cs: seq<Node>, b: Document)
    requires name in HiddenNames
    ensures VisibleText(a + [Tag(name, id, cs)] + b) == VisibleText(a + b)
  {
    var t := [Tag(name, id, cs)];
    DecomposeAppend(a + t, b);
    DecomposeAppend(a, t);
    DecomposeAppend(a, b);
    Singleton(t[0]);
    assert Decompose(a + t) == Decompose(a);
  }

  // ---------------------------------------------------------------------
  // An independent description of which text is visible: every text node
  // together with the tag names of the elements it sits inside.

  datatype Occurrence = Occurrence(ancestors: seq<string>, text: string)

  /** The text nodes of `nodes` in document order, each with its ancestors'
      tag names, outermost first, below the given `ancestors`. */
  function Occurrences(nodes: seq<Node>, ancestors: seq<string>): seq<Occurrence>
    decreases nodes
  {
    if nodes == [] then []
    else NodeOccurrences(nodes[0], ancestors) + Occurrences(nodes[1..], ancestors)
  }

  function NodeOccurrences(n: Node, ancestors: seq<string>): seq<Occurrence>
    decreases n
  {
    match n
    case TextNode(t) => [Occurrence(ancestors, t)]
    case Tag(name, _, cs) => Occurrences(cs, ancestors + [name])
  }

  /** No element on the path is a `script`, `style` or `noscript`. */
  predicate OutsideHidden(ancestors: seq<string>) {
    forall k | 0 <= k < |ancestors| :: ancestors[k] !in HiddenNames
  }

  /** The occurrences that do not lie inside a hidden subtree, in order. */
  function Unhidden(os: seq<Occurrence>): (r: seq<Occurrence>)
    ensures forall k | 0 <= k < |r| :: OutsideHidden(r[k].ancestors)
  {
    if os == [] then []
    else (if OutsideHidden(os[0].ancestors) then [os[0]] else []) + Unhidden(os[1..])
  }

  function Texts(os: seq<Occurrence>): seq<string> {
    if os == [] then [] else [os[0].text] + Texts(os[1..])
  }

  lemma {:induction false} UnhiddenAppend(a: seq<Occurrence>, b: seq<Occurrence>)
    ensures Unhidden(a + b) == Unhidden(a) + Unhidden(b)
  {
    if a == [] {
      assert a + b == b;
    } else {
      assert (a + b)[0] == a[0];
      assert (a + b)[1..] == a[1..] + b;
      UnhiddenAppend(a[1..], b);
    }
  }

  lemma {:induction false} TextsAppend(a: seq<Occurrence>, b: seq<Occurrence>)
    ensures Texts(a + b) == Texts(a) + Texts(b)
  {
    if a == [] {
      assert a + b == b;
    } else {
      assert (a + b)[0] == a[0];
      assert (a + b)[1..] == a[1..] + b;
      TextsAppend(a[1..], b);
    }
  }

  /** Every occurrence below `ancestors` carries `ancestors` as a prefix. */
  lemma {:induction false} OccurrencesExtend(nodes: seq<Node>, ancestors: seq<string>)
    ensures forall k | 0 <= k < |Occurrences(nodes, ancestors)| ::
              ancestors <= Occurrences(nodes, ancestors)[k].ancestors
    decreases nodes
  {
    if nodes != [] {
      NodeOccurrencesExtend(nodes[0], ancestors);
      OccurrencesExtend(nodes[1..], ancestors);
    }
  }

  lemma {:induction false} NodeOccurrencesExtend(n: Node, ancestors: seq<string>)
    ensures forall k | 0 <= k < |NodeOccurrences(n, ancestors)| ::
              ancestors <= NodeOccurrences(n, ancestors)[k].ancestors
    decreases n
  {
    match n
    case TextNode(_) =>
    case Tag(name, _, cs) =>
      OccurrencesExtend(cs, ancestors + [name]);
  }

  /** `get_text` on the untouched tree visits exactly the text of every occurrence. */
  lemma {:induction false} AllStringsAreOccurrences(nodes: seq<Node>, ancestors: seq<string>)
    ensures AllStrings(nodes) == Texts(Occurrences(nodes, ancestors))
    decreases nodes
  {
    if nodes != [] {
      NodeStringsAreOccurrences(nodes[0], ancestors);
      AllStringsAreOccurrences(nodes[1..], ancestors);
      TextsAppend(NodeOccurrences(nodes[0], ancestors), Occurrences(nodes[1..], ancestors));
    }
  }

  lemma {:induction false} NodeStringsAreOccurrences(n: Node, ancestors: seq<string>)
    ensures NodeStrings(n) == Texts(NodeOccurrences(n, ancestors))
    decreases n
  {
    match n
    case TextNode(t) =>
      assert [Occurrence(ancestors, t)][1..] == [];
    case Tag(name, _, cs) =>
      AllStringsAreOccurrences(cs, ancestors + [name]);
  }

  /** Below a hidden element no occurrence is visible. */
  lemma HiddenSubtreeIsInvisible(nodes: seq<Node>, ancestors: seq<string>)
    requires !OutsideHidden(ancestors)
    ensures Unhidden(Occurrences(nodes, ancestors)) == []
  {
    OccurrencesExtend(nodes, ancestors);
    var k :| 0 <= k < |ancestors| && ancestors[k] in HiddenNames;
    UnhiddenNone(Occurrences(nodes, ancestors), ancestors[k], k);
  }

  lemma {:induction false} UnhiddenNone(os: seq<Occurrence>, name: string, k: nat)
    requires name in HiddenNames
    requires forall j | 0 <= j < |os| :: k < |os[j].ancestors| && os[j].ancestors[k] == name
    ensures Unhidden(os) == []
  {
    if os != [] {
      UnhiddenNone(os[1..], name, k);
    }
  }

  /** The strings left after removing the hidden subtrees are exactly the
      texts of the occurrences outside every hidden subtree, in document order. */
  lemma {:induction false} DecomposeKeepsUnhidden(nodes: seq<Node>, ancestors: seq<string>)
    requires OutsideHidden(ancestors)
    ensures AllStrings(Decompose(nodes)) == Texts(Unhidden(Occurrences(nodes, ancestors)))
    decreases nodes
  {
    if nodes != [] {
      var head, tail := NodeOccurrences(nodes[0], ancestors), Occurrences(nodes[1..], ancestors);
      DecomposeNodeKeepsUnhidden(nodes[0], ancestors);
      DecomposeKeepsUnhidden(nodes[1..], ancestors);
      AllStringsAppend(DecomposeNode(nodes[0]), Decompose(nodes[1..]));
      UnhiddenAppend(head, tail);
      TextsAppend(Unhidden(head), Unhidden(tail));
    }
  }

  lemma {:induction false} DecomposeNodeKeepsUnhidden(n: Node, ancestors: seq<string>)
    requires OutsideHidden(ancestors)
    ensures AllStrings(DecomposeNode(n)) == Texts(Unhidden(NodeOccurrences(n, ancestors)))
    decreases n
  {
    match n
    case TextNode(t) =>
      var o := Occurrence(ancestors, t);
      Singleton(n);
      assert [o][1..] == [];
    case Tag(name, id, cs) =>
      if name in HiddenNames {
        assert (ancestors + [name])[|ancestors|] == name;
        HiddenSubtreeIsInvisible(cs, ancestors + [name]);
      } else {
        DecomposeKeepsUnhidden(cs, ancestors + [name]);
        Singleton(Tag(name, id, Decompose(cs)));
      }
  }

  /** What `get_text` returns, stated over occurrences: every text node counts,
      also the ones inside `script`, `style` and `noscript`. */
  lemma GetTextOfOccurrences(doc: Document)
    ensures GetText(doc) == JoinSpace(StrippedStrings(Texts(Occurrences(doc, []))))
  {
    AllStringsAreOccurrences(doc, []);
  }

  /** What `get_visible_text` returns, stated over occurrences: the stripped,
      non-empty texts of exactly those text nodes that lie outside every
      `script`, `style` and `noscript` element, in document order, joined
      with single spaces. */
  lemma VisibleTextOfOccurrences(doc: Document)
    ensures VisibleText(doc) == JoinSpace(StrippedStrings(Texts(Unhidden(Occurrences(doc, [])))))
  {
    DecomposeKeepsUnhidden(doc, []);
  }

  /** The visible text is empty exactly when every text node outside the
      `script`, `style` and `noscript` elements is whitespace only. */
  lemma VisibleTextEmpty(doc: Document)
    ensures var visible := Texts(Unhidden(Occurrences(doc, [])));
            VisibleText(doc) == "" <==> forall k | 0 <= k < |visible| :: AllSpace(visible[k])
  {
    var parts := StrippedStrings(Texts(Unhidden(Occurrences(doc, []))));
    VisibleTextOfOccurrences(doc);
    JoinSpaceStripped(parts);
    StrippedStringsEmpty(Texts(Unhidden(Occurrences(doc, []))));
  }

  // ---------------------------------------------------------------------
  // The visible text is never longer than all the text.

  /** The visible text is never longer than the text `get_text` finds on the
      untouched tree. */
  lemma VisibleTextNoLonger(doc: Document)
    ensures |VisibleText(doc)| <= |GetText(doc)|
  {
    var v := StrippedStrings(AllStrings(Decompose(doc)));
    var all := StrippedStrings(AllStrings(doc));
    DecomposeNarrows(doc);
    if v != [] {
      assert Width(all) >= 1;
    }
  }

  /** The width of the stripped strings of `nodes`, as `" ".join` counts it. */
  function StringsWidth(nodes: seq<Node>): nat {
    Width(StrippedStrings(AllStrings(nodes)))
  }

  lemma StringsWidthAppend(a: seq<Node>, b: seq<Node>)
    ensures StringsWidth(a + b) == StringsWidth(a) + StringsWidth(b)
  {
    AllStringsAppend(a, b);
    StrippedStringsAppend(AllStrings(a), AllStrings(b));
    WidthAppend(StrippedStrings(AllStrings(a)), StrippedStrings(AllStrings(b)));
  }

  lemma {:induction false} DecomposeNarrows(nodes: seq<Node>)
    ensures StringsWidth(Decompose(nodes)) <= StringsWidth(nodes)
    decreases nodes
  {
    if nodes != [] {
      DecomposeNodeNarrows(nodes[0]);
      DecomposeNarrows(nodes[1..]);
      assert nodes == [nodes[0]] + nodes[1..];
      StringsWidthAppend([nodes[0]], nodes[1..]);
      StringsWidthAppend(DecomposeNode(nodes[0]), Decompose(nodes[1..]));
    }
  }

  lemma {:induction false} DecomposeNodeNarrows(n: Node)
    ensures StringsWidth(DecomposeNode(n)) <= StringsWidth([n])
    decreases n
  {
    match n
    case TextNode(_) =>
    case Tag(name, id, cs) =>
      Singleton(n);
      if name !in HiddenNames {
        DecomposeNarrows(cs);
        Singleton(Tag(name, id, Decompose(cs)));
      }
  }
}
