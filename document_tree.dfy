/** The web client's document tree (apps/web/src/components/document/document-tree.tsx):
    `buildTree` turns the flat document list into a forest whose sibling lists are
    sorted by `order`, and `TreeItem` renders it, descending only into expanded nodes. */
module DocumentTree {
  import opened Wrappers
  import opened DocModel

  /** What `buildTree` builds: the root list, and for every node (a document of the
      input) its `children` array, keyed by the node's id. A tree node is the document
      together with `children[doc.id]`. */
  datatype Forest = Forest(roots: seq<Doc>, children: map<Id, seq<Doc>>)

  // ---------------------------------------------------------------------------
  // Specification of the two passes of buildTree

  /** The `Map` after the first pass: each id mapped to the last document carrying it. */
  function NodesById(q: seq<Doc>): (r: map<Id, Doc>)
    ensures forall d :: d in q ==> d.id in r
    ensures forall k :: k in r ==> r[k] in q && r[k].id == k
  {
    if q == [] then map[]
    else
      var last := q[|q| - 1];
      var r := NodesById(q[..|q| - 1])[last.id := last];
      assert forall d :: d in q ==> d in q[..|q| - 1] || d == last;
      r
  }

  /** `doc.parentId && map.has(doc.parentId)`: the document is attached below another node. */
  predicate Attached(nodes: map<Id, Doc>, d: Doc) {
    Truthy(d.parent) && d.parent.value in nodes
  }

  /** `map.get(doc.id)!`: the node stored under the document's id (always present
      after the first pass; the document itself otherwise). */
  function NodeOf(nodes: map<Id, Doc>, d: Doc): Doc {
    if d.id in nodes then nodes[d.id] else d
  }

  /** The root list after the second pass: the nodes of the unattached documents, in input order. */
  function RootsOf(q: seq<Doc>, nodes: map<Id, Doc>): seq<Doc> {
    if q == [] then []
    else
      var last := q[|q| - 1];
      RootsOf(q[..|q| - 1], nodes) + (if Attached(nodes, last) then [] else [NodeOf(nodes, last)])
  }

  /** The children array of node `p` after the second pass: the nodes of the documents
      attached below `p`, in input order. */
  function ChildrenOf(q: seq<Doc>, nodes: map<Id, Doc>, p: Id): seq<Doc> {
    if q == [] then []
    else
      var last := q[|q| - 1];
      ChildrenOf(q[..|q| - 1], nodes, p) +
        (if Attached(nodes, last) && last.parent.value == p then [NodeOf(nodes, last)] else [])
  }

  // ---------------------------------------------------------------------------
  // buildTree (lines 21-52)

  method BuildTree(documents: seq<Doc>) returns (f: Forest)
    ensures IsBuiltFrom(f, documents)
  {
    var nodes, children := InitializeMap(documents);
    var roots;
    roots, children := Attach(documents, nodes, children);
    roots := SortByOrder(roots);
    children := SortChildren(children);
    f := Forest(roots, children);
  }

  /** 1. Initialize map: every node starts with an empty `children` array. */
  method InitializeMap(documents: seq<Doc>) returns (nodes: map<Id, Doc>, children: map<Id, seq<Doc>>)
    ensures nodes == NodesById(documents)
    ensures children.Keys == nodes.Keys && forall k :: k in children ==> children[k] == []
  {
    nodes := map[];
    children := map[];
    var i := 0;
    while i < |documents|
      invariant 0 <= i <= |documents|
      invariant nodes == NodesById(documents[..i])
      invariant children.Keys == nodes.Keys && forall k :: k in children ==> children[k] == []
    {
      assert documents[..i + 1][..i] == documents[..i];
      nodes := nodes[documents[i].id := documents[i]];
      children := children[documents[i].id := []];
      i := i + 1;
    }
    assert documents[..i] == documents;
  }

  /** 2. Build tree: each document's node goes to its parent node's `children` when the
      parentId is truthy and names a node, otherwise to the roots. */
  method Attach(documents: seq<Doc>, nodes: map<Id, Doc>, empty: map<Id, seq<Doc>>)
    returns (roots: seq<Doc>, children: map<Id, seq<Doc>>)
    requires empty.Keys == nodes.Keys && forall k :: k in empty ==> empty[k] == []
    ensures roots == RootsOf(documents, nodes)
    ensures children.Keys == nodes.Keys
    ensures forall k :: k in children ==> children[k] == ChildrenOf(documents, nodes, k)
  {
    roots := [];
    children := empty;
    var i := 0;
    while i < |documents|
      invariant 0 <= i <= |documents|
      invariant roots == RootsOf(documents[..i], nodes)
      invariant children.Keys == nodes.Keys
      invariant forall k :: k in children ==> children[k] == ChildrenOf(documents[..i], nodes, k)
    {
      var doc := documents[i];
      AttachStep(documents, nodes, i);
      var node := NodeOf(nodes, doc);
      if Truthy(doc.parent) && doc.parent.value in nodes {
        var p := doc.parent.value;
        ghost var before := children;
        children := children[p := children[p] + [node]];
        forall k | k in children ensures children[k] == ChildrenOf(documents[..i + 1], nodes, k) {
          if k != p { assert children[k] == before[k]; }
        }
      } else {
        roots := roots + [node];
      }
      i := i + 1;
    }
    assert documents[..i] == documents;
  }

  /** One more document of the input extends the root list or one children array. */
  lemma AttachStep(documents: seq<Doc>, nodes: map<Id, Doc>, i: nat)
    requires i < |documents|
    ensures RootsOf(documents[..i + 1], nodes) ==
      RootsOf(documents[..i], nodes) + (if Attached(nodes, documents[i]) then [] else [NodeOf(nodes, documents[i])])
    ensures forall k :: (ChildrenOf(documents[..i + 1], nodes, k) ==
      ChildrenOf(documents[..i], nodes, k) +
        (if Attached(nodes, documents[i]) && documents[i].parent.value == k then [NodeOf(nodes, documents[i])] else []))
  {
    assert documents[..i + 1][..i] == documents[..i];
  }

  /** 3. `sortRecursive`: every children array sorted by order. */
  method SortChildren(unsorted: map<Id, seq<Doc>>) returns (children: map<Id, seq<Doc>>)
    ensures children.Keys == unsorted.Keys
    ensures forall k :: k in children ==> children[k] == SortByOrder(unsorted[k])
  {
    children := unsorted;
    var todo := children.Keys;
    while todo != {}
      invariant todo <= children.Keys && children.Keys == unsorted.Keys
      invariant forall k :: k in children && k !in todo ==> children[k] == SortByOrder(unsorted[k])
      invariant forall k :: k in todo ==> children[k] == unsorted[k]
      decreases todo
    {
      var k :| k in todo;
      children := children[k := SortByOrder(children[k])];
      todo := todo - {k};
    }
  }

  // ---------------------------------------------------------------------------
  // Properties of the forest

  predicate UniqueIds(q: seq<Doc>) {
    forall i, j :: 0 <= i < j < |q| ==> q[i].id != q[j].id
  }

  /** With unique ids every document is its own node: the node keeps every field of its document. */
  lemma {:induction false} NodesAreTheDocuments(q: seq<Doc>)
    requires UniqueIds(q)
    ensures forall d :: d in q ==> NodesById(q)[d.id] == d
  {
    if q != [] {
      var init := q[..|q| - 1];
      var last := q[|q| - 1];
      assert UniqueIds(init);
      NodesAreTheDocuments(init);
      forall d | d in q ensures NodesById(q)[d.id] == d {
        if d != last {
          assert d in init;
          var j :| 0 <= j < |init| && init[j] == d;
          assert q[j] == d;
        }
      }
    }
  }

  lemma LastIsNew(q: seq<Doc>)
    requires UniqueIds(q) && q != []
    ensures UniqueIds(q[..|q| - 1]) && q[|q| - 1] !in q[..|q| - 1]
    ensures forall x :: x in q <==> x in q[..|q| - 1] || x == q[|q| - 1]
  {
    var init := q[..|q| - 1];
    assert q == init + [q[|q| - 1]];
    assert forall j :: 0 <= j < |init| ==> init[j].id != q[|q| - 1].id;
  }

  /** How often the second pass puts `d` in the root list. */
  lemma {:induction false} RootsOfCount(q: seq<Doc>, nodes: map<Id, Doc>, d: Doc)
    requires UniqueIds(q)
    requires forall x :: x in q ==> x.id in nodes && nodes[x.id] == x
    ensures multiset(RootsOf(q, nodes))[d] == if d in q && !Attached(nodes, d) then 1 else 0
  {
    if q != [] {
      var init := q[..|q| - 1];
      var last := q[|q| - 1];
      LastIsNew(q);
      RootsOfCount(init, nodes, d);
    }
  }

  /** How often the second pass puts `d` in the children array of `p`. */
  lemma {:induction false} ChildrenOfCount(q: seq<Doc>, nodes: map<Id, Doc>, p: Id, d: Doc)
    requires UniqueIds(q)
    requires forall x :: x in q ==> x.id in nodes && nodes[x.id] == x
    ensures multiset(ChildrenOf(q, nodes, p))[d] ==
      if d in q && Attached(nodes, d) && d.parent.value == p then 1 else 0
  {
    if q != [] {
      var init := q[..|q| - 1];
      var last := q[|q| - 1];
      LastIsNew(q);
      ChildrenOfCount(init, nodes, p, d);
    }
  }

  /** Only input documents are placed; a child names its parent; a root is unattached. */
  lemma {:induction false} ListsHoldInputs(q: seq<Doc>, nodes: map<Id, Doc>, p: Id)
    requires forall x :: x in q ==> x.id in nodes && nodes[x.id] == x
    ensures forall x :: x in RootsOf(q, nodes) ==> x in q && !Attached(nodes, x)
    ensures forall x :: x in ChildrenOf(q, nodes, p) ==> x in q && Attached(nodes, x) && x.parent == Some(p)
  {
    if q != [] {
      assert forall x :: x in q[..|q| - 1] ==> x in q;
      ListsHoldInputs(q[..|q| - 1], nodes, p);
    }
  }

  /** What `buildTree` returns for `documents`. */
  ghost predicate IsBuiltFrom(f: Forest, documents: seq<Doc>) {
    && f.roots == SortByOrder(RootsOf(documents, NodesById(documents)))
    && f.children.Keys == NodesById(documents).Keys
    && forall k :: k in f.children ==> f.children[k] == SortByOrder(ChildrenOf(documents, NodesById(documents), k))
  }

  /** With unique ids, every input document appears exactly once in the forest: in the
      children array of the document its parentId names when that document is in the
      input, otherwise (no parentId, or a dangling one, which is no error) in the root list. */
  lemma BuildTreePlacesEachDocumentOnce(documents: seq<Doc>, f: Forest, d: Doc)
    requires UniqueIds(documents) && d in documents && IsBuiltFrom(f, documents)
    ensures d.id in f.children
    ensures Attached(NodesById(documents), d) ==>
      multiset(f.children[d.parent.value])[d] == 1 && d !in f.roots &&
      forall k :: k in f.children && k != d.parent.value ==> d !in f.children[k]
    ensures !Attached(NodesById(documents), d) ==>
      multiset(f.roots)[d] == 1 && forall k :: k in f.children ==> d !in f.children[k]
  {
    var nodes := NodesById(documents);
    NodesAreTheDocuments(documents);
    assert d.id in nodes && nodes[d.id] == d;
    RootsOfCount(documents, nodes, d);
    assert multiset(f.roots)[d] == if Attached(nodes, d) then 0 else 1;
    forall k | k in f.children
      ensures d in f.children[k] <==> Attached(nodes, d) && d.parent.value == k
      ensures Attached(nodes, d) && d.parent.value == k ==> multiset(f.children[k])[d] == 1
    {
      ChildrenOfCount(documents, nodes, k, d);
    }
  }

  /** With unique ids, the forest holds only input documents, unchanged (a node keeps every
      field of its document); each child names its parent; each root is unattached; and
      every list is sorted by order. */
  lemma BuildTreeListsAreSortedInputs(documents: seq<Doc>, f: Forest)
    requires UniqueIds(documents) && IsBuiltFrom(f, documents)
    ensures SortedByOrder(f.roots) && forall k :: k in f.children ==> SortedByOrder(f.children[k])
    ensures forall x :: x in f.roots ==> x in documents && !Attached(NodesById(documents), x)
    ensures forall k, x :: k in f.children && x in f.children[k] ==> x in documents && x.parent == Some(k)
  {
    var nodes := NodesById(documents);
    NodesAreTheDocuments(documents);
    SortByOrderElements(RootsOf(documents, nodes));
    ListsHoldInputs(documents, nodes, "");
    forall k | k in f.children
      ensures forall x :: x in f.children[k] ==> x in documents && x.parent == Some(k)
    {
      SortByOrderElements(ChildrenOf(documents, nodes, k));
      ListsHoldInputs(documents, nodes, k);
    }
  }

  // ---------------------------------------------------------------------------
  // TreeItem (lines 127-215): the rendered rows

  /** One rendered row: the node and its nesting level. */
  datatype Row = Row(doc: Doc, level: nat)

  /** `expanded[node.id]`; an id missing from the record is collapsed. */
  predicate IsExpanded(expanded: map<Id, bool>, id: Id) {
    id in expanded && expanded[id]
  }

  /** A `TreeItem`: its own row, then, only when it is expanded, its children one level
      deeper. `fuel` bounds the nesting; see README. */
  function RenderNode(f: Forest, node: Doc, level: nat, expanded: map<Id, bool>, fuel: nat): (r: seq<Row>)
    ensures |r| >= 1 && r[0] == Row(node, level)
    ensures !IsExpanded(expanded, node.id) ==> r == [Row(node, level)]
    ensures forall i :: 0 < i < |r| ==> r[i].level > level
    decreases fuel, 0
  {
    [Row(node, level)] +
      if fuel > 0 && IsExpanded(expanded, node.id) && node.id in f.children
      then RenderNodes(f, f.children[node.id], level + 1, expanded, fuel - 1)
      else []
  }

  /** A list of sibling `TreeItem`s, in list order. */
  function RenderNodes(f: Forest, nodes: seq<Doc>, level: nat, expanded: map<Id, bool>, fuel: nat): (r: seq<Row>)
    ensures |r| >= |nodes|
    ensures forall i :: 0 <= i < |r| ==> r[i].level >= level
    decreases fuel, |nodes|
  {
    if nodes == [] then []
    else RenderNode(f, nodes[0], level, expanded, fuel) + RenderNodes(f, nodes[1..], level, expanded, fuel)
  }

  /** The whole tree view: the roots at level 0. */
  function Render(f: Forest, expanded: map<Id, bool>): seq<Row> {
    RenderNodes(f, f.roots, 0, expanded, |f.children|)
  }

  /** With every node collapsed only the roots are rendered, each at level 0. */
  lemma {:induction false} CollapsedRendersOnlyGivenNodes(f: Forest, nodes: seq<Doc>, level: nat, expanded: map<Id, bool>, fuel: nat)
    requires forall d :: d in nodes ==> !IsExpanded(expanded, d.id)
    ensures RenderNodes(f, nodes, level, expanded, fuel) == seq(|nodes|, i requires 0 <= i < |nodes| => Row(nodes[i], level))
    decreases |nodes|
  {
    if nodes != [] {
      CollapsedRendersOnlyGivenNodes(f, nodes[1..], level, expanded, fuel);
    }
  }

  /** Every row deeper than `base` is a child of an expanded row rendered before it,
      one level up: the pre-order of an expanded-only walk. */
  ghost predicate ParentsPrecede(f: Forest, rows: seq<Row>, base: nat, expanded: map<Id, bool>) {
    forall i {:trigger HasParentBefore(f, rows, i, expanded)} ::
      0 <= i < |rows| && rows[i].level > base ==> HasParentBefore(f, rows, i, expanded)
  }

  /** Some row before row `i` is its parent row. */
  ghost predicate HasParentBefore(f: Forest, rows: seq<Row>, i: int, expanded: map<Id, bool>)
    requires 0 <= i < |rows|
  {
    exists j :: 0 <= j < i && IsParentRow(f, rows[j], rows[i], expanded)
  }

  ghost predicate IsParentRow(f: Forest, parent: Row, child: Row, expanded: map<Id, bool>) {
    && parent.level + 1 == child.level
    && IsExpanded(expanded, parent.doc.id)
    && parent.doc.id in f.children
    && child.doc in f.children[parent.doc.id]
  }

  lemma ParentsPrecedeAppend(f: Forest, a: seq<Row>, b: seq<Row>, base: nat, expanded: map<Id, bool>)
    requires ParentsPrecede(f, a, base, expanded) && ParentsPrecede(f, b, base, expanded)
    ensures ParentsPrecede(f, a + b, base, expanded)
  {
    var r := a + b;
    forall i | 0 <= i < |r| && r[i].level > base
      ensures HasParentBefore(f, r, i, expanded)
    {
      if i < |a| {
        assert HasParentBefore(f, a, i, expanded);
        var j :| 0 <= j < i && IsParentRow(f, a[j], a[i], expanded);
        assert r[j] == a[j];
      } else {
        assert HasParentBefore(f, b, i - |a|, expanded);
        var j :| 0 <= j < i - |a| && IsParentRow(f, b[j], b[i - |a|], expanded);
        assert r[j + |a|] == b[j];
      }
    }
  }

  lemma {:induction false} RenderNodeParentsPrecede(f: Forest, node: Doc, level: nat, expanded: map<Id, bool>, fuel: nat)
    ensures ParentsPrecede(f, RenderNode(f, node, level, expanded, fuel), level, expanded)
    decreases fuel, 0
  {
    var r := RenderNode(f, node, level, expanded, fuel);
    if fuel > 0 && IsExpanded(expanded, node.id) && node.id in f.children {
      var kids := f.children[node.id];
      var rest := RenderNodes(f, kids, level + 1, expanded, fuel - 1);
      RenderNodesParentsPrecede(f, kids, level + 1, expanded, fuel - 1);
      RenderNodesTopRows(f, kids, level + 1, expanded, fuel - 1);
      assert r == [Row(node, level)] + rest;
      forall i | 0 <= i < |r| && r[i].level > level
        ensures HasParentBefore(f, r, i, expanded)
      {
        assert i > 0 && r[i] == rest[i - 1];
        if rest[i - 1].level == level + 1 {
          assert IsParentRow(f, r[0], r[i], expanded);
        } else {
          assert HasParentBefore(f, rest, i - 1, expanded);
          var j :| 0 <= j < i - 1 && IsParentRow(f, rest[j], rest[i - 1], expanded);
          assert r[j + 1] == rest[j];
        }
      }
    }
  }

  lemma {:induction false} RenderNodesParentsPrecede(f: Forest, nodes: seq<Doc>, level: nat, expanded: map<Id, bool>, fuel: nat)
    ensures ParentsPrecede(f, RenderNodes(f, nodes, level, expanded, fuel), level, expanded)
    decreases fuel, |nodes|
  {
    if nodes != [] {
      RenderNodeParentsPrecede(f, nodes[0], level, expanded, fuel);
      RenderNodesParentsPrecede(f, nodes[1..], level, expanded, fuel);
      ParentsPrecedeAppend(f, RenderNode(f, nodes[0], level, expanded, fuel),
        RenderNodes(f, nodes[1..], level, expanded, fuel), level, expanded);
    }
  }

  /** A row at the level of the list itself is one of the listed nodes. */
  lemma {:induction false} RenderNodesTopRows(f: Forest, nodes: seq<Doc>, level: nat, expanded: map<Id, bool>, fuel: nat)
    ensures forall i :: 0 <= i < |RenderNodes(f, nodes, level, expanded, fuel)| ==>
      (RenderNodes(f, nodes, level, expanded, fuel)[i].level == level ==>
       RenderNodes(f, nodes, level, expanded, fuel)[i].doc in nodes)
    decreases |nodes|
  {
    if nodes != [] {
      RenderNodesTopRows(f, nodes[1..], level, expanded, fuel);
      var a := RenderNode(f, nodes[0], level, expanded, fuel);
      var b := RenderNodes(f, nodes[1..], level, expanded, fuel);
      var ab: seq<Row> := a + b;
      forall i | 0 <= i < |ab| && ab[i].level == level ensures ab[i].doc in nodes {
        if i < |a| {
          assert i == 0;
        } else {
          assert ab[i] == b[i - |a|];
          assert b[i - |a|].doc in nodes[1..];
        }
      }
    }
  }

  /** The whole view: rows at level 0 are roots; every deeper row sits below an expanded
      parent rendered before it, of which it is a child. */
  lemma RenderShowsExpandedOnly(f: Forest, expanded: map<Id, bool>)
    ensures forall i :: 0 <= i < |Render(f, expanded)| && Render(f, expanded)[i].level == 0 ==>
      Render(f, expanded)[i].doc in f.roots
    ensures ParentsPrecede(f, Render(f, expanded), 0, expanded)
  {
    RenderNodesTopRows(f, f.roots, 0, expanded, |f.children|);
    RenderNodesParentsPrecede(f, f.roots, 0, expanded, |f.children|);
  }
}
