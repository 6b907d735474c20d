/** Reachability in the forest `buildTree` (apps/web/src/components/document/document-tree.tsx)
    returns: with unique ids and an acyclic parent relation, every input document is
    reached from the roots along exactly one path. */
module ForestPaths {
  import opened Wrappers
  import opened DocModel
  import opened DocumentTree

  /** The walk up from `d` through the input's nodes reaches an unattached node within
      `n` steps. */
  predicate RootedWithin(nodes: map<Id, Doc>, d: Doc, n: nat)
    decreases n
  {
    if Attached(nodes, d) then n > 0 && RootedWithin(nodes, nodes[d.parent.value], n - 1) else true
  }

  /** The parent relation among the input documents has no cycle: from every document
      the walk up its parents ends at a root of the forest. */
  ghost predicate ParentsAcyclic(documents: seq<Doc>) {
    forall d :: d in documents ==> exists n: nat :: RootedWithin(NodesById(documents), d, n)
  }

  /** A path of the forest from one of the roots down through children arrays. */
  ghost predicate IsPath(f: Forest, path: seq<Doc>) {
    && |path| >= 1
    && path[0] in f.roots
    && forall i :: 0 <= i < |path| - 1 ==> path[i].id in f.children && path[i + 1] in f.children[path[i].id]
  }

  /** The links of a forest over `documents` with node map `nodes`: every input is its
      own node and every node an input; roots are exactly the unattached inputs; and a
      document is in the children array of `k` exactly when it is attached under `k`. */
  ghost predicate Linked(documents: seq<Doc>, nodes: map<Id, Doc>, f: Forest) {
    && (forall d :: d in documents ==> d.id in nodes && nodes[d.id] == d)
    && (forall k :: k in nodes ==> nodes[k] in documents && nodes[k].id == k)
    && (forall x :: x in f.roots ==> x in documents && !Attached(nodes, x))
    && (forall k :: k in f.children ==>
          forall x :: x in f.children[k] ==> x in documents && Attached(nodes, x) && x.parent.value == k)
    && (forall d :: d in documents && !Attached(nodes, d) ==> d in f.roots)
    && (forall d :: d in documents && Attached(nodes, d) ==>
          d.parent.value in f.children && d in f.children[d.parent.value])
  }

  /** With unique ids, the forest `buildTree` returns is linked to its input. */
  lemma BuiltIsLinked(documents: seq<Doc>, f: Forest)
    requires UniqueIds(documents) && IsBuiltFrom(f, documents)
    ensures Linked(documents, NodesById(documents), f)
  {
    var nodes := NodesById(documents);
    NodesAreTheDocuments(documents);
    SortByOrderElements(RootsOf(documents, nodes));
    ListsHoldInputs(documents, nodes, "");
    forall k | k in f.children
      ensures forall x :: x in f.children[k] ==> x in documents && Attached(nodes, x) && x.parent.value == k
    {
      SortByOrderElements(ChildrenOf(documents, nodes, k));
      ListsHoldInputs(documents, nodes, k);
    }
    forall d | d in documents
      ensures !Attached(nodes, d) ==> d in f.roots
      ensures Attached(nodes, d) ==> d.parent.value in f.children && d in f.children[d.parent.value]
    {
      BuildTreePlacesEachDocumentOnce(documents, f, d);
    }
  }

  /** A document whose walk up ends is reached from a root. */
  lemma {:induction false} ReachedFromRoot(documents: seq<Doc>, nodes: map<Id, Doc>, f: Forest, d: Doc, n: nat)
    requires Linked(documents, nodes, f) && d in documents
    requires RootedWithin(nodes, d, n)
    ensures exists path :: IsPath(f, path) && path[|path| - 1] == d
    decreases n
  {
    if !Attached(nodes, d) {
      assert IsPath(f, [d]);
    } else {
      var p := nodes[d.parent.value];
      ReachedFromRoot(documents, nodes, f, p, n - 1);
      var path :| IsPath(f, path) && path[|path| - 1] == p;
      var path' := path + [d];
      assert p.id == d.parent.value;
      assert IsPath(f, path');
    }
  }

  /** Two paths ending at the same document are the same path. */
  lemma {:induction false} PathIsUnique(documents: seq<Doc>, nodes: map<Id, Doc>, f: Forest, p1: seq<Doc>, p2: seq<Doc>)
    requires Linked(documents, nodes, f)
    requires IsPath(f, p1) && IsPath(f, p2) && p1[|p1| - 1] == p2[|p2| - 1]
    ensures p1 == p2
    decreases |p1|
  {
    var n1, n2 := |p1|, |p2|;
    var d := p1[n1 - 1];
    assert n1 > 1 ==> p1[n1 - 2].id in f.children && d in f.children[p1[n1 - 2].id];
    assert n2 > 1 ==> p2[n2 - 2].id in f.children && d in f.children[p2[n2 - 2].id];
    assert n1 == 1 ==> d in f.roots;
    assert n2 == 1 ==> d in f.roots;
    if Attached(nodes, d) {
      assert n1 > 1 && n2 > 1;
      var a, b := p1[n1 - 2], p2[n2 - 2];
      if n1 == 2 { assert a in f.roots; } else { assert a in f.children[p1[n1 - 3].id]; }
      if n2 == 2 { assert b in f.roots; } else { assert b in f.children[p2[n2 - 3].id]; }
      assert a == nodes[a.id] && b == nodes[b.id];
      PathIsUnique(documents, nodes, f, p1[..n1 - 1], p2[..n2 - 1]);
      assert p1 == p1[..n1 - 1] + [d] && p2 == p2[..n2 - 1] + [d];
    } else {
      assert n1 == 1 && n2 == 1;
      assert p1 == [d] == p2;
    }
  }

  /** With unique ids and an acyclic parent relation, every input document is reached
      from the roots of the forest `buildTree` returns, along exactly one path (so from
      exactly one root, exactly once). */
  lemma BuildTreeReachesEachDocumentOnce(documents: seq<Doc>, f: Forest, d: Doc)
    requires UniqueIds(documents) && ParentsAcyclic(documents) && IsBuiltFrom(f, documents)
    requires d in documents
    ensures exists path :: IsPath(f, path) && path[|path| - 1] == d
    ensures forall p1, p2 :: IsPath(f, p1) && IsPath(f, p2) && p1[|p1| - 1] == d && p2[|p2| - 1] == d ==> p1 == p2
  {
    var nodes := NodesById(documents);
    BuiltIsLinked(documents, f);
    var n: nat :| RootedWithin(nodes, d, n);
    ReachedFromRoot(documents, nodes, f, d, n);
    forall p1, p2 | IsPath(f, p1) && IsPath(f, p2) && p1[|p1| - 1] == d && p2[|p2| - 1] == d
      ensures p1 == p2
    {
      PathIsUnique(documents, nodes, f, p1, p2);
    }
  }
}
