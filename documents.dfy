/** The server's document table (apps/api/src/documents/documents.service.ts):
    creation with a trailing sibling `order`, listing, deletion, and moves guarded
    by the ancestor-chain cycle check. */
module Documents {
  import opened Wrappers
  import opened DocModel

  /** The document table, keyed by id. */
  type Store = map<Id, Doc>

  /** Every row is stored under its own id. */
  ghost predicate Keyed(s: Store) {
    forall k :: k in s ==> s[k].id == k
  }

  // ---------------------------------------------------------------------------
  // The parent relation

  /** One step up the parent chain as `ensureNoCircularRef` takes it: the row's
      parentId when the row exists and its parentId is truthy; otherwise the walk ends. */
  function Up(s: Store, x: Id): (r: Option<Id>)
    ensures r.Some? ==> x in s && r == s[x].parent && r.value != ""
  {
    if x in s && Truthy(s[x].parent) then s[x].parent else None
  }

  /** The walk up from `x` ends after at most `n` more steps. */
  predicate EndsWithin(s: Store, x: Id, n: nat)
    decreases n
  {
    match Up(s, x)
    case None => true
    case Some(y) => n > 0 && EndsWithin(s, y, n - 1)
  }

  /** The walk up from `x` ends. */
  ghost predicate Finite(s: Store, x: Id) {
    exists n: nat :: EndsWithin(s, x, n)
  }

  /** The walk `ensureNoCircularRef` takes from `x` stops within `n` more steps: it
      meets the moving id `m`, or it ends. */
  predicate StopsWithin(s: Store, m: Id, x: Id, n: nat)
    decreases n
  {
    if m == x then true
    else match Up(s, x)
      case None => true
      case Some(y) => n > 0 && StopsWithin(s, m, y, n - 1)
  }

  /** The cycle check for moving `m` under `t` returns. The only inputs on which the
      source recursion diverges have a cycle above `t` that does not pass through `m`. */
  ghost predicate CheckReturns(s: Store, m: Id, t: Id) {
    exists n: nat :: StopsWithin(s, m, t, n)
  }

  /** A walk that ends also stops, so on an acyclic table the check always returns. */
  lemma {:induction false} EndsWithinStops(s: Store, m: Id, x: Id, n: nat)
    requires EndsWithin(s, x, n)
    ensures StopsWithin(s, m, x, n)
    decreases n
  {
    if m != x {
      match Up(s, x)
      case None =>
      case Some(y) => EndsWithinStops(s, m, y, n - 1);
    }
  }

  /** The parent relation has no cycle: from every row the walk up reaches a
      root or a dangling parent. */
  ghost predicate Acyclic(s: Store) {
    forall x :: x in s ==> Finite(s, x)
  }

  /** The k-th id on the chain from `x` upward (`x` itself for k == 0), if the
      chain is that long. The reference definition of "ancestor". */
  function Hop(s: Store, x: Id, k: nat): Option<Id>
    decreases k
  {
    if k == 0 then Some(x)
    else match Up(s, x)
      case None => None
      case Some(y) => Hop(s, y, k - 1)
  }

  /** `m` lies on the chain from `t` upward (`t` included). */
  ghost predicate OnChain(s: Store, m: Id, t: Id) {
    exists k: nat :: Hop(s, t, k) == Some(m)
  }

  // ---------------------------------------------------------------------------
  // ensureNoCircularRef (lines 143-156)

  /** Rejects a move of `movingId` under `targetParentId` when the target is the
      moving document itself or when the moving document is met on the walk up
      from the target. `n` bounds the walk until it meets the moving id or ends; it
      exists exactly when the source recursion returns. */
  function EnsureNoCircularRef(s: Store, movingId: Id, targetParentId: Id, ghost n: nat): (r: Outcome)
    requires StopsWithin(s, movingId, targetParentId, n)
    ensures r.Fail? ==> r.error == BadRequest
    ensures movingId == targetParentId ==> r.Fail?
    decreases n
  {
    if movingId == targetParentId then Fail(BadRequest)
    else match Up(s, targetParentId)
      case None => Pass
      case Some(p) => EnsureNoCircularRef(s, movingId, p, n - 1)
  }

  /** The check rejects exactly when the moving id is on the chain from the target. */
  lemma {:induction false} EnsureNoCircularRefRejectsOnChain(s: Store, m: Id, t: Id, n: nat)
    requires StopsWithin(s, m, t, n)
    ensures EnsureNoCircularRef(s, m, t, n).Fail? <==> OnChain(s, m, t)
    decreases n
  {
    if m == t {
      assert Hop(s, t, 0) == Some(m);
    } else {
      match Up(s, t)
      case None =>
        forall k: nat ensures Hop(s, t, k) != Some(m) {
          if k > 0 { assert Hop(s, t, k) == None; }
        }
      case Some(p) =>
        EnsureNoCircularRefRejectsOnChain(s, m, p, n - 1);
        if OnChain(s, m, p) {
          var k: nat :| Hop(s, p, k) == Some(m);
          assert Hop(s, t, k + 1) == Some(m);
        }
        if OnChain(s, m, t) {
          var k: nat :| Hop(s, t, k) == Some(m);
          assert k > 0;
          assert Hop(s, p, k - 1) == Some(m);
        }
    }
  }

  /** A target whose row does not exist ends the walk: unless it is the moving id, it is accepted. */
  lemma UnknownTargetAccepted(s: Store, m: Id, t: Id, n: nat)
    requires t !in s && m != t
    ensures StopsWithin(s, m, t, n) && EnsureNoCircularRef(s, m, t, n) == Pass
  {
  }

  /** A table where A and B are each other's parent: moving A under B meets A after one
      step, so the check returns and rejects the move. */
  lemma CycleThroughMovingIdIsRejected(a: Doc, b: Doc)
    requires a.id == "A" && a.parent == Some("B") && b.id == "B" && b.parent == Some("A")
    ensures !Finite(map["A" := a, "B" := b], "B")
    ensures CheckReturns(map["A" := a, "B" := b], "A", "B")
    ensures EnsureNoCircularRef(map["A" := a, "B" := b], "A", "B", 1) == Fail(BadRequest)
  {
    var s := map["A" := a, "B" := b];
    assert StopsWithin(s, "A", "B", 1);
    if Finite(s, "B") {
      var n: nat :| EndsWithin(s, "B", n);
      HopPastEnd(s, "B", n, 2 * (n + 1));
      var j: nat := 0;
      while j <= n
        invariant j <= n + 1 && Hop(s, "B", 2 * j) == Some("B")
      {
        HopAdd(s, "B", 2 * j, 2);
        assert Hop(s, "B", 2) == Some("B");
        j := j + 1;
      }
      assert false;
    }
  }

  // ---------------------------------------------------------------------------
  // Acyclicity is preserved by an accepted move

  /** The row `id` with its parent and order replaced: the update of `move` (lines 123-128). */
  function MoveRow(s: Store, id: Id, parentId: Option<Id>, order: real): (r: Store)
    requires id in s
    ensures r.Keys == s.Keys
    ensures r[id].parent == parentId && r[id].order == order
    ensures r[id] == s[id].(parent := parentId, order := order)
    ensures forall k :: k in s && k != id ==> r[k] == s[k]
  {
    s[id := s[id].(parent := parentId, order := order)]
  }

  lemma {:induction false} EndsWithinMonotonic(s: Store, x: Id, n: nat, m: nat)
    requires EndsWithin(s, x, n) && n <= m
    ensures EndsWithin(s, x, m)
    decreases n
  {
    match Up(s, x)
    case None =>
    case Some(y) => EndsWithinMonotonic(s, y, n - 1, m - 1);
  }

  /** A walk that never meets the moved row is the same walk after the move. */
  lemma {:induction false} WalkAvoidingMovedRow(s: Store, id: Id, p: Option<Id>, o: real, x: Id, n: nat)
    requires id in s
    requires StopsWithin(s, id, x, n) && EnsureNoCircularRef(s, id, x, n) == Pass
    ensures EndsWithin(MoveRow(s, id, p, o), x, n)
    decreases n
  {
    var s' := MoveRow(s, id, p, o);
    assert Up(s', x) == Up(s, x);
    match Up(s, x)
    case None =>
    case Some(y) => WalkAvoidingMovedRow(s, id, p, o, y, n - 1);
  }

  /** After the move, every walk that ended within `n` steps ends within `n + extra`,
      where `extra` bounds the walk from the moved row in the new store. */
  lemma {:induction false} WalkAfterMove(s: Store, id: Id, p: Option<Id>, o: real, x: Id, n: nat, extra: nat)
    requires id in s
    requires EndsWithin(MoveRow(s, id, p, o), id, extra)
    requires EndsWithin(s, x, n)
    ensures EndsWithin(MoveRow(s, id, p, o), x, n + extra)
    decreases n
  {
    var s' := MoveRow(s, id, p, o);
    if x == id {
      EndsWithinMonotonic(s', id, extra, n + extra);
    } else {
      assert Up(s', x) == Up(s, x);
      match Up(s, x)
      case None =>
      case Some(y) => WalkAfterMove(s, id, p, o, y, n - 1, extra);
    }
  }

  /** The headline invariant: a move that passes the cycle check (or that sends the
      document to the root, which skips it) keeps the parent relation acyclic. */
  lemma MovePreservesAcyclic(s: Store, id: Id, parentId: Option<Id>, order: real, n: nat)
    requires Acyclic(s) && id in s
    requires Truthy(parentId) ==>
      StopsWithin(s, id, parentId.value, n) && EnsureNoCircularRef(s, id, parentId.value, n) == Pass
    ensures Acyclic(MoveRow(s, id, parentId, order))
  {
    var s' := MoveRow(s, id, parentId, order);
    var extra: nat := 0;
    if Truthy(parentId) {
      WalkAvoidingMovedRow(s, id, parentId, order, parentId.value, n);
      assert Up(s', id) == parentId;
      extra := n + 1;
    } else {
      assert Up(s', id) == None;
    }
    assert EndsWithin(s', id, extra);
    forall x | x in s' ensures Finite(s', x) {
      var k: nat :| EndsWithin(s, x, k);
      WalkAfterMove(s, id, parentId, order, x, k, extra);
    }
  }

  lemma {:induction false} HopAdd(s: Store, x: Id, a: nat, b: nat)
    ensures Hop(s, x, a + b) == match Hop(s, x, a) case None => None case Some(y) => Hop(s, y, b)
    decreases a
  {
    if a > 0 {
      match Up(s, x)
      case None =>
      case Some(y) => HopAdd(s, y, a - 1, b);
    }
  }

  lemma {:induction false} HopPastEnd(s: Store, x: Id, n: nat, k: nat)
    requires EndsWithin(s, x, n) && k > n
    ensures Hop(s, x, k) == None
    decreases n
  {
    match Up(s, x)
    case None =>
    case Some(y) => HopPastEnd(s, y, n - 1, k - 1);
  }

  /** Acyclic in the usual sense: no row is its own proper ancestor. */
  lemma AcyclicHasNoCycle(s: Store, x: Id, k: nat)
    requires Acyclic(s) && x in s && k > 0
    ensures Hop(s, x, k) != Some(x)
  {
    if Hop(s, x, k) == Some(x) {
      var n: nat :| EndsWithin(s, x, n);
      var j: nat := 0;
      while j <= n
        invariant Hop(s, x, j * k) == Some(x)
      {
        HopAdd(s, x, j * k, k);
        assert j * k + k == (j + 1) * k;
        j := j + 1;
      }
      assert j * k >= j > n;
      HopPastEnd(s, x, n, j * k);
      assert false;
    }
  }

  // ---------------------------------------------------------------------------
  // Queries answered by the database

  predicate IsSibling(d: Doc, spaceId: Id, parentId: Option<Id>) {
    d.spaceId == spaceId && d.parent == parentId
  }

  /** `last` is what `findFirst({where: {spaceId, parentId}, orderBy: {order: 'desc'}})`
      may return: no row when there is no sibling, otherwise a sibling of greatest order
      (ties left to the database). */
  predicate IsLastSibling(s: Store, spaceId: Id, parentId: Option<Id>, last: Option<Doc>) {
    match last
    case None => forall k :: k in s ==> !IsSibling(s[k], spaceId, parentId)
    case Some(d) =>
      d in s.Values && IsSibling(d, spaceId, parentId) &&
      forall k :: k in s && IsSibling(s[k], spaceId, parentId) ==> s[k].order <= d.order
  }

  lemma {:induction false} MaxOrderExists(s: Store, ks: set<Id>)
    requires ks <= s.Keys && ks != {}
    ensures exists k :: k in ks && forall j :: j in ks ==> s[j].order <= s[k].order
    decreases ks
  {
    var k0 :| k0 in ks;
    if ks != {k0} {
      MaxOrderExists(s, ks - {k0});
      var k1 :| k1 in ks - {k0} && forall j :: j in ks - {k0} ==> s[j].order <= s[k1].order;
      if s[k0].order <= s[k1].order {
        assert forall j :: j in ks ==> s[j].order <= s[k1].order;
      } else {
        assert forall j :: j in ks ==> s[j].order <= s[k0].order;
      }
    }
  }

  lemma LastSiblingExists(s: Store, spaceId: Id, parentId: Option<Id>)
    ensures exists last :: IsLastSibling(s, spaceId, parentId, last)
  {
    var ks := set k | k in s && IsSibling(s[k], spaceId, parentId);
    if ks == {} {
      assert forall k :: k in s && IsSibling(s[k], spaceId, parentId) ==> k in ks;
      assert IsLastSibling(s, spaceId, parentId, None);
    } else {
      MaxOrderExists(s, ks);
      var k :| k in ks && forall j :: j in ks ==> s[j].order <= s[k].order;
      assert IsLastSibling(s, spaceId, parentId, Some(s[k]));
    }
  }

  /** `r` is what `findMany({where: {spaceId}, orderBy: {order: 'asc'}})` may return:
      every row of the space exactly once, in non-decreasing order (ties left to the database). */
  predicate IsSpaceListing(s: Store, spaceId: Id, r: seq<Doc>) {
    && SortedByOrder(r)
    && (forall d :: d in r ==> d in s.Values && d.spaceId == spaceId)
    && (forall k :: k in s && s[k].spaceId == spaceId ==> s[k] in r)
    && (forall i, j :: 0 <= i < j < |r| ==> r[i].id != r[j].id)
  }

  /** `r` lists the rows with keys in `ks`, sorted, each once. */
  ghost predicate ListsRows(s: Store, ks: set<Id>, r: seq<Doc>) {
    && ks <= s.Keys
    && SortedByOrder(r)
    && (forall d :: d in r ==> d.id in ks && d.id in s && s[d.id] == d)
    && (forall k :: k in ks ==> s[k] in r)
    && (forall d :: multiset(r)[d] <= 1)
  }

  lemma {:induction false} ListingOfKeysExists(s: Store, ks: set<Id>)
    requires Keyed(s) && ks <= s.Keys
    ensures exists r :: ListsRows(s, ks, r)
    decreases ks
  {
    if ks == {} {
      assert ListsRows(s, ks, []);
    } else {
      var k0 :| k0 in ks;
      ListingOfKeysExists(s, ks - {k0});
      var r: seq<Doc> :| ListsRows(s, ks - {k0}, r);
      var r' := InsertByOrder(r, s[k0]);
      InsertByOrderElements(r, s[k0]);
      assert s[k0] !in r;
      forall d ensures multiset(r')[d] <= 1 {
        if d == s[k0] { assert multiset(r)[d] == 0; }
      }
      assert forall d :: d in r' ==> d.id in ks && d.id in s && s[d.id] == d;
      assert forall k :: k in ks ==> s[k] in r';
      assert ListsRows(s, ks, r');
    }
  }

  lemma RepeatedElement(r: seq<Doc>, i: nat, j: nat)
    requires i < j < |r| && r[i] == r[j]
    ensures multiset(r)[r[i]] >= 2
  {
    assert r == r[..i] + [r[i]] + r[i + 1..j] + [r[j]] + r[j + 1..];
  }

  lemma SpaceListingExists(s: Store, spaceId: Id)
    requires Keyed(s)
    ensures exists r :: IsSpaceListing(s, spaceId, r)
  {
    var ks := set k | k in s && s[k].spaceId == spaceId;
    ListingOfKeysExists(s, ks);
    var r: seq<Doc> :| ListsRows(s, ks, r);
    forall i, j | 0 <= i < j < |r| ensures r[i].id != r[j].id {
      if r[i].id == r[j].id {
        assert r[i] in r && r[j] in r;
        RepeatedElement(r, i, j);
      }
    }
    forall d | d in r ensures d in s.Values && d.spaceId == spaceId {
      assert d.id in ks;
    }
    assert IsSpaceListing(s, spaceId, r);
  }

  // ---------------------------------------------------------------------------
  // The service

  class DocumentsService {
    /** The `document` table. */
    var docs: Store

    ghost predicate Valid()
      reads this
    {
      Keyed(docs)
    }

    constructor ()
      ensures Valid() && docs == map[]
    {
      docs := map[];
    }

    /** `create` (lines 11-53). `id` is the fresh id the database generates; the
        parentId, validated as a UUID, is never the empty string. The new row's order
        is 0 without siblings, else the greatest sibling order plus one. */
    method Create(id: Id, spaceId: Id, userId: Id, title: string, content: Option<string>, parentId: Option<Id>)
      returns (d: Doc)
      requires Valid() && id !in docs && parentId != Some("")
      modifies this
      ensures Valid()
      ensures docs == old(docs)[id := d]
      ensures d.id == id && d.title == title && d.spaceId == spaceId && d.parent == parentId && d.createdBy == userId
      ensures d.content == (if Truthy(content) then content.value else "")
      ensures (forall k :: k in old(docs) ==> !IsSibling(old(docs)[k], spaceId, parentId)) ==> d.order == 0.0
      ensures forall k :: k in old(docs) && IsSibling(old(docs)[k], spaceId, parentId) ==> old(docs)[k].order < d.order
      ensures (exists k :: k in old(docs) && IsSibling(old(docs)[k], spaceId, parentId)) ==>
        exists k :: k in old(docs) && IsSibling(old(docs)[k], spaceId, parentId) &&
          d.order == old(docs)[k].order + 1.0 &&
          forall j :: j in old(docs) && IsSibling(old(docs)[j], spaceId, parentId) ==>
            old(docs)[j].order <= old(docs)[k].order
    {
      var order := 0.0;
      LastSiblingExists(docs, spaceId, parentId);
      var lastDoc: Option<Doc> :| IsLastSibling(docs, spaceId, parentId, lastDoc);
      if lastDoc.Some? {
        order := lastDoc.value.order + 1.0;
        ghost var k :| k in docs && docs[k] == lastDoc.value;
        assert IsSibling(docs[k], spaceId, parentId) && order == docs[k].order + 1.0;
      }
      d := Doc(id, title, if Truthy(content) then content.value else "", spaceId, parentId, order, userId);
      docs := docs[id := d];
    }

    /** `findAll` (lines 55-68): the space's rows, each once, in ascending order. */
    method FindAll(spaceId: Id) returns (r: seq<Doc>)
      requires Valid()
      ensures SortedByOrder(r)
      ensures forall d :: d in r <==> d in docs.Values && d.spaceId == spaceId
      ensures forall i, j :: 0 <= i < j < |r| ==> r[i].id != r[j].id
    {
      SpaceListingExists(docs, spaceId);
      r :| IsSpaceListing(docs, spaceId, r);
    }

    /** `findOne` (lines 70-89). */
    method FindOne(id: Id) returns (r: Result<Doc>)
      ensures id in docs <==> r.Ok?
      ensures r.Ok? ==> r.value == docs[id]
      ensures r.Err? ==> r.error == NotFound
    {
      if id in docs {
        r := Ok(docs[id]);
      } else {
        r := Err(NotFound);
      }
    }

    /** `remove` (lines 98-102): deletes one row; `delete` of a missing row throws.
        Children keep their parentId (no cascade is modelled). */
    method Remove(id: Id) returns (r: Result<Doc>)
      requires Valid()
      modifies this
      ensures Valid()
      ensures id !in old(docs) ==> r == Err(NotFound) && docs == old(docs)
      ensures id in old(docs) ==> r == Ok(old(docs)[id]) && docs == old(docs) - {id}
    {
      if id !in docs {
        return Err(NotFound);
      }
      r := Ok(docs[id]);
      docs := docs - {id};
    }

    /** `move` (lines 108-137). An unknown id is NotFound; a truthy parentId is checked
        by `ensureNoCircularRef`; otherwise only the row's parentId (absent becomes null)
        and order change. The check must return: its walk meets `id` or ends. */
    method Move(id: Id, parentId: Option<Id>, order: real) returns (r: Result<Doc>)
      requires Valid()
      requires id in docs && Truthy(parentId) ==> CheckReturns(docs, id, parentId.value)
      modifies this
      ensures Valid()
      ensures id !in old(docs) ==> r == Err(NotFound) && docs == old(docs)
      ensures id in old(docs) && Truthy(parentId) && OnChain(old(docs), id, parentId.value) ==>
        r == Err(BadRequest) && docs == old(docs)
      ensures id in old(docs) && !(Truthy(parentId) && OnChain(old(docs), id, parentId.value)) ==>
        docs == MoveRow(old(docs), id, parentId, order) && r == Ok(docs[id])
      ensures old(Acyclic(docs)) ==> Acyclic(docs)
    {
      if id !in docs {
        return Err(NotFound);
      }
      if Truthy(parentId) {
        ghost var n: nat :| StopsWithin(docs, id, parentId.value, n);
        EnsureNoCircularRefRejectsOnChain(docs, id, parentId.value, n);
        var check := EnsureNoCircularRef(docs, id, parentId.value, n);
        if check.Fail? {
          return Err(check.error);
        }
        if Acyclic(docs) {
          MovePreservesAcyclic(docs, id, parentId, order, n);
        }
      } else if Acyclic(docs) {
        MovePreservesAcyclic(docs, id, parentId, order, 0);
      }
      docs := MoveRow(docs, id, parentId, order);
      r := Ok(docs[id]);
    }
  }
}
