/** The web client's document cache (apps/web/src/hooks/use-documents.ts): the
    `documents` state list and the five operations that replace it. Each server call
    is an input: its response, or the error it throws. */
module DocumentCache {
  import opened Wrappers
  import opened DocModel

  /** `prev.map(doc => doc.id === id ? change(doc) : doc)` */
  function MapMatching(s: seq<Doc>, id: Id, change: Doc -> Doc): (r: seq<Doc>)
    ensures |r| == |s|
    ensures forall i :: 0 <= i < |s| && s[i].id == id ==> r[i] == change(s[i])
    ensures forall i :: 0 <= i < |s| && s[i].id != id ==> r[i] == s[i]
  {
    if s == [] then []
    else [if s[0].id == id then change(s[0]) else s[0]] + MapMatching(s[1..], id, change)
  }

  /** The list after a successful update: exactly the entries with the id are replaced. */
  function ReplaceById(s: seq<Doc>, id: Id, updated: Doc): (r: seq<Doc>)
    ensures |r| == |s|
    ensures forall i :: 0 <= i < |s| ==> r[i] == if s[i].id == id then updated else s[i]
  {
    MapMatching(s, id, _ => updated)
  }

  /** The optimistic list of a move: `{ ...doc, parentId, order }` for the entry with the id,
      so only that entry's parentId and order change. */
  function MoveLocally(s: seq<Doc>, id: Id, parentId: Option<Id>, order: real): (r: seq<Doc>)
    ensures |r| == |s|
    ensures forall i :: 0 <= i < |s| && s[i].id == id ==>
      r[i].parent == parentId && r[i].order == order && r[i] == s[i].(parent := parentId, order := order)
    ensures forall i :: 0 <= i < |s| && s[i].id != id ==> r[i] == s[i]
  {
    MapMatching(s, id, (d: Doc) => d.(parent := parentId, order := order))
  }

  /** `prev.filter(doc => doc.id !== id)` */
  function Without(s: seq<Doc>, id: Id): (r: seq<Doc>)
    ensures forall x :: x in r <==> x in s && x.id != id
    ensures |r| <= |s|
  {
    if s == [] then []
    else (if s[0].id == id then [] else [s[0]]) + Without(s[1..], id)
  }

  /** Filtering distributes over concatenation, so the kept entries stay in their relative order. */
  lemma {:induction false} WithoutKeepsOrder(a: seq<Doc>, b: seq<Doc>, id: Id)
    ensures Without(a + b, id) == Without(a, id) + Without(b, id)
  {
    if a == [] {
      assert a + b == b;
    } else {
      assert (a + b)[0] == a[0] && (a + b)[1..] == a[1..] + b;
      WithoutKeepsOrder(a[1..], b, id);
    }
  }

  /** Filtering an id that no entry has changes nothing. */
  lemma {:induction false} WithoutAbsentId(s: seq<Doc>, id: Id)
    requires forall x :: x in s ==> x.id != id
    ensures Without(s, id) == s
  {
    if s != [] {
      WithoutAbsentId(s[1..], id);
    }
  }

  /** Updating an id that no entry has changes nothing. */
  lemma ReplaceAbsentId(s: seq<Doc>, id: Id, updated: Doc)
    requires forall x :: x in s ==> x.id != id
    ensures ReplaceById(s, id, updated) == s
  {
  }

  /** The hook's state. */
  class DocumentsHook {
    /** `documents` */
    var documents: seq<Doc>
    /** `error`: whether the last fetch failed. */
    var failed: bool

    constructor ()
      ensures documents == [] && !failed
    {
      documents := [];
      failed := false;
    }

    /** `fetchDocuments` (lines 14-32): nothing happens without a spaceId; otherwise the
        list is replaced by the server's result, or kept when the fetch throws. */
    method FetchDocuments(spaceId: Id, response: Result<seq<Doc>>)
      modifies this
      ensures spaceId == "" ==> documents == old(documents) && failed == old(failed)
      ensures spaceId != "" && response.Ok? ==> documents == response.value && !failed
      ensures spaceId != "" && response.Err? ==> documents == old(documents) && failed
    {
      if spaceId == "" {
        return;
      }
      if response.Ok? {
        documents := response.value;
        failed := false;
      } else {
        failed := true;
      }
    }

    /** `createDocument` (lines 47-58): the created document is appended; an error is rethrown. */
    method CreateDocument(response: Result<Doc>) returns (r: Result<Doc>)
      modifies this`documents
      ensures r == response
      ensures response.Ok? ==> documents == old(documents) + [response.value]
      ensures response.Err? ==> documents == old(documents)
    {
      if response.Ok? {
        documents := documents + [response.value];
      }
      r := response;
    }

    /** `updateDocument` (lines 60-73): every entry with the id is replaced by the server's
        document; an error is rethrown. */
    method UpdateDocument(id: Id, response: Result<Doc>) returns (r: Result<Doc>)
      modifies this`documents
      ensures r == response
      ensures response.Ok? ==> documents == ReplaceById(old(documents), id, response.value)
      ensures response.Err? ==> documents == old(documents)
    {
      if response.Ok? {
        documents := ReplaceById(documents, id, response.value);
      }
      r := response;
    }

    /** `moveDocument` (lines 79-101): snapshot, optimistic update, server call; on failure
        the snapshot is restored and the error rethrown. `optimistic` is the list shown
        while the call is pending. */
    method MoveDocument(id: Id, parentId: Option<Id>, order: real, response: Outcome)
      returns (optimistic: seq<Doc>, r: Outcome)
      modifies this`documents
      ensures r == response
      ensures optimistic == MoveLocally(old(documents), id, parentId, order)
      ensures response.Pass? ==> documents == optimistic
      ensures response.Fail? ==> documents == old(documents)
    {
      var prevDocuments := documents;
      documents := MoveLocally(documents, id, parentId, order);
      optimistic := documents;
      if response.Fail? {
        documents := prevDocuments;
      }
      r := response;
    }

    /** `deleteDocument` (lines 103-118): after the server deletes, every entry with the id
        is filtered out; an error is rethrown and the list kept. */
    method DeleteDocument(id: Id, response: Outcome) returns (r: Outcome)
      modifies this`documents
      ensures r == response
      ensures response.Pass? ==> documents == Without(old(documents), id)
      ensures response.Fail? ==> documents == old(documents)
    {
      if response.Pass? {
        documents := Without(documents, id);
      }
      r := response;
    }
  }
}
