# DocStudio core, modelled in Dafny

DocStudio is a collaborative document workspace. Users own **spaces**. A space holds
a tree of **documents**, linked by `parentId` and ordered among siblings by `order`.
This project models the logic that decides what the system does:

- **The server's document table.** Creating a document gives it a trailing sibling
  order. A move re-parents and reorders one document after an ancestor-chain cycle check.
  The headline result: a move the server accepts never introduces a cycle into the
  parent relation.
- **The web client.**
  - `buildTree` turns the flat document list into a forest, with every sibling list
    sorted by `order`.
  - The tree view renders only below expanded nodes.
  - The client's document cache has optimistic moves that roll back on failure.
- **The authorisation and lifecycle rules.** These cover:
  - the space roles (OWNER, ADMIN, EDITOR, VIEWER);
  - member management;
  - invitations (PENDING, then ACCEPTED or EXPIRED);
  - the per-request permission guard;
  - the protections on the administrator's account actions, and list pagination;
  - the share-link access gate.
- **URL building.** `getCdnUrl` and the users service's `transformUser`.

## Layout

- `wrappers.dfy`: `Option`, `Result`, `Outcome`, the error kinds, JavaScript truthiness of
  an optional string, and string prefix and suffix tests.
- `docmodel.dfy`: the document record, and sorting by `order` (a stable insertion sort).
- `documents.dfy`: `DocumentsService`, the document table as `map<Id, Doc>`.
- `document_tree.dfy`:
  - `BuildTree`, a method in three passes like the source;
  - its specification functions;
  - the rendering functions.
- `forest_paths.dfy`: paths from the roots of the built forest, and the proof that on
  acyclic input with unique ids each document is reached along exactly one path.
- `use_documents.dfy`: `DocumentsHook`, the cache as a class with a `seq<Doc>` field.
- `spaces.dfy`: the decision functions of the spaces service, and `SpacesService` with its
  space, permission and invitation tables.
- `guard.dfy`: `CanActivate`.
- `share.dfy`: the share-link gate functions, and `ShareService` for creation and view counts.
- `users.dfy`: `TransformUser`, and `UsersService` over the user table.
- `admin.dfy`: pagination and projections as functions, and `AdminService` for status and deletion.
- `cdn.dfy`: `GetCdnUrl`.

Database queries become reads of the tables, and writes become updates of a map field.
Inputs stand for what cannot be modelled:

- generated ids and tokens (`randomUUID`, database defaults);
- bcrypt's hash and compare;
- JWT signing and verification (`verify` returns the payload, or None when it throws);
- the clock (`now`, an integer in milliseconds);
- environment variables;
- results of server calls in the web client.

## Model

| member | source | states |
|---|---|---|
| Documents.EnsureNoCircularRef | apps/api/src/documents/documents.service.ts:143-156 | the check fails only with BadRequest, and always fails when the target is the moving document |
| Documents.EnsureNoCircularRefRejectsOnChain | apps/api/src/documents/documents.service.ts:143-156 | the check rejects if and only if the moving id lies on the parent chain from the target upward (target included), a reference definition by hop counting |
| Documents.EndsWithinStops | apps/api/src/documents/documents.service.ts:143-156 | a walk up that ends also stops for the check, so on an acyclic table the check always returns |
| Documents.CycleThroughMovingIdIsRejected | apps/api/src/documents/documents.service.ts:143-146 | with A and B each other's parent, the walk from B never ends, yet the check for moving A under B returns and rejects with BadRequest |
| Documents.UnknownTargetAccepted | apps/api/src/documents/documents.service.ts:148-155 | a target with no row ends the walk and is accepted unless it is the moving id |
| Documents.MoveRow | apps/api/src/documents/documents.service.ts:123-128 | the update of a move changes only that row's parentId and order; keys and every other row are kept |
| Documents.MovePreservesAcyclic | apps/api/src/documents/documents.service.ts:104-137 | if the parent relation is acyclic, a move that passes the check (or goes to the root, skipping it) leaves it acyclic |
| Documents.AcyclicHasNoCycle | apps/api/src/documents/documents.service.ts:104-137 | in an acyclic table no document is its own proper ancestor at any distance |
| Documents.LastSiblingExists | apps/api/src/documents/documents.service.ts:20-28 | the `findFirst` by descending order always has an answer: no row without siblings, else a sibling of greatest order |
| Documents.SpaceListingExists | apps/api/src/documents/documents.service.ts:56-58 | a sorted listing of exactly a space's rows, each once, always exists |
| Documents.DocumentsService.Create | apps/api/src/documents/documents.service.ts:11-53 | order is 0 with no sibling under the same (space, parent); otherwise the greatest sibling order plus one; title, space, parent and creator are stored, and content defaults to "" |
| Documents.DocumentsService.FindAll | apps/api/src/documents/documents.service.ts:55-68 | the result is sorted by order, holds exactly the space's rows, and has no id twice |
| Documents.DocumentsService.FindOne | apps/api/src/documents/documents.service.ts:70-89 | the row, or NotFound if and only if the id is unknown |
| Documents.DocumentsService.Remove | apps/api/src/documents/documents.service.ts:98-102 | deletes exactly that row, or NotFound with the table unchanged |
| Documents.DocumentsService.Move | apps/api/src/documents/documents.service.ts:108-137 | NotFound for an unknown id and BadRequest for a target on the chain, both leaving the table unchanged; otherwise the table is MoveRow of the old one; acyclicity is preserved |
| DocModel.InsertByOrder | apps/web/src/components/document/document-tree.tsx:43-46 | inserting into a sorted list keeps it sorted and adds exactly the element (multiset) |
| DocModel.InsertByOrderElements | apps/web/src/components/document/document-tree.tsx:43-46 | the inserted list holds exactly the old elements and the new one |
| DocModel.SortByOrder | apps/web/src/components/document/document-tree.tsx:43-46 | `nodes.sort(sortFn)`: the result is sorted by order and a permutation of the input |
| DocModel.SortByOrderElements | apps/web/src/components/document/document-tree.tsx:46 | sorting keeps the length and exactly the elements |
| DocumentTree.NodesById | apps/web/src/components/document/document-tree.tsx:25-28 | the first pass maps every input id to a document of the input carrying that id |
| DocumentTree.NodesAreTheDocuments | apps/web/src/components/document/document-tree.tsx:25-28 | with unique ids, each node is the document itself, so a node keeps every field of its document |
| DocumentTree.RootsOfCount | apps/web/src/components/document/document-tree.tsx:31-38 | the second pass puts a document in the root list once when no input document is its parent, and never otherwise |
| DocumentTree.ChildrenOfCount | apps/web/src/components/document/document-tree.tsx:31-38 | the second pass puts a document once into the children of the input document its parentId names, and into no other children list |
| DocumentTree.ListsHoldInputs | apps/web/src/components/document/document-tree.tsx:31-38 | roots are unattached input documents, and children lists hold input documents naming that parent |
| DocumentTree.BuildTree | apps/web/src/components/document/document-tree.tsx:21-52 | the three passes (map, attach, sort every list) build exactly the specified forest |
| DocumentTree.InitializeMap | apps/web/src/components/document/document-tree.tsx:25-28 | the loop builds the id map and an empty children list per id |
| DocumentTree.Attach | apps/web/src/components/document/document-tree.tsx:30-38 | the loop pushes each node onto its parent's children when the parent is an input document, and onto the roots otherwise |
| DocumentTree.SortChildren | apps/web/src/components/document/document-tree.tsx:45-48 | every children list is replaced by its sorted permutation |
| DocumentTree.BuildTreePlacesEachDocumentOnce | apps/web/src/components/document/document-tree.tsx:25-38 | with unique ids, each input document is in exactly one list, once: the children array of the document its parentId names when that document is an input, otherwise the roots (no parentId, or a dangling one, raises no error) |
| ForestPaths.BuiltIsLinked | apps/web/src/components/document/document-tree.tsx:25-50 | with unique ids, the roots are exactly the unattached inputs, and a document is in the children array of `k` exactly when it is attached under `k` |
| ForestPaths.ReachedFromRoot | apps/web/src/components/document/document-tree.tsx:30-38 | a document whose walk up its parents ends is reached by a path from one of the returned roots |
| ForestPaths.PathIsUnique | apps/web/src/components/document/document-tree.tsx:30-38 | two root paths that end at the same document are the same path |
| ForestPaths.BuildTreeReachesEachDocumentOnce | apps/web/src/components/document/document-tree.tsx:21-52 | with unique ids and an acyclic parent relation, every input document appears exactly once in the forest `buildTree` returns: it is reached from the roots along exactly one path |
| DocumentTree.BuildTreeListsAreSortedInputs | apps/web/src/components/document/document-tree.tsx:27-50 | the root list and every children list are sorted by order and hold only unchanged input documents; each child names its parent |
| DocumentTree.RenderNode | apps/web/src/components/document/document-tree.tsx:127-215 | a TreeItem renders its own row first at its level; a collapsed node renders only that row; its descendants' rows are deeper |
| DocumentTree.RenderNodes | apps/web/src/components/document/document-tree.tsx:201-213 | a sibling list renders at least one row per node, none above the list's level |
| DocumentTree.CollapsedRendersOnlyGivenNodes | apps/web/src/components/document/document-tree.tsx:201-213 | with the listed nodes collapsed, exactly their rows are rendered, in order, at the list's level |
| DocumentTree.RenderNodeParentsPrecede | apps/web/src/components/document/document-tree.tsx:201-213 | every deeper row of a TreeItem follows an expanded parent row one level up, of which it is a child |
| DocumentTree.RenderNodesTopRows | apps/web/src/components/document/document-tree.tsx:108-121 | a row at a list's own level is one of the listed nodes |
| DocumentTree.RenderShowsExpandedOnly | apps/web/src/components/document/document-tree.tsx:108-213 | in the whole view, rows at level 0 are roots, and every deeper row is a child of an expanded row rendered before it, one level up |
| DocumentCache.MapMatching | apps/web/src/hooks/use-documents.ts:63-65 | `prev.map`: same length and positions; entries with the id are changed and the others kept |
| DocumentCache.ReplaceById | apps/web/src/hooks/use-documents.ts:63-65 | exactly the entries whose id matches are replaced, and length and positions are kept |
| DocumentCache.MoveLocally | apps/web/src/hooks/use-documents.ts:84-90 | the optimistic list changes only the parentId and order of the matching entries |
| DocumentCache.Without | apps/web/src/hooks/use-documents.ts:106 | the entries kept are exactly those without the id |
| DocumentCache.WithoutKeepsOrder | apps/web/src/hooks/use-documents.ts:106 | filtering distributes over concatenation, so the relative order of the rest is kept |
| DocumentCache.WithoutAbsentId | apps/web/src/hooks/use-documents.ts:106 | deleting an id no entry has changes nothing |
| DocumentCache.DocumentsHook.FetchDocuments | apps/web/src/hooks/use-documents.ts:14-32 | an empty spaceId does nothing; success replaces the whole list and clears the error; failure keeps the list and sets the error |
| DocumentCache.DocumentsHook.CreateDocument | apps/web/src/hooks/use-documents.ts:47-58 | success appends the new document and keeps the earlier entries; failure keeps the list and rethrows |
| DocumentCache.DocumentsHook.UpdateDocument | apps/web/src/hooks/use-documents.ts:60-73 | success is ReplaceById; failure keeps the list and rethrows |
| DocumentCache.DocumentsHook.MoveDocument | apps/web/src/hooks/use-documents.ts:79-101 | the optimistic list is MoveLocally of the snapshot; success keeps it; failure restores exactly the snapshot and rethrows |
| DocumentCache.DocumentsHook.DeleteDocument | apps/web/src/hooks/use-documents.ts:103-118 | success is Without; failure keeps the list and rethrows |
| Spaces.CheckPermission | apps/api/src/spaces/spaces.service.ts:161-183 | a missing space is NotFound; the owner passes as OWNER; anyone else passes, with their role, if and only if they hold a required role, and is Forbidden otherwise |
| Spaces.CheckPermissionGrantsRequired | apps/api/src/spaces/spaces.service.ts:173-182 | a passing caller is flagged owner exactly when they own the space, and otherwise holds a required role |
| Spaces.MyRole | apps/api/src/spaces/spaces.service.ts:77-83 | (and line 126) OWNER for the owner, else the permission role, else null, and null only then |
| Spaces.FindOne | apps/api/src/spaces/spaces.service.ts:97-127 | NotFound if and only if there is no such space; Forbidden if and only if it is private and the user is neither member nor owner; otherwise the space with MyRole |
| Spaces.PrivateSpaceViewHasRole | apps/api/src/spaces/spaces.service.ts:117-126 | whoever may open a private space has a non-null role there |
| Spaces.FindAll | apps/api/src/spaces/spaces.service.ts:54-84 | exactly the spaces the user owns or is a member of, each with MyRole |
| Spaces.FindAllRolesDefined | apps/api/src/spaces/spaces.service.ts:77-83 | no listed space has a null role |
| Spaces.RemoveCheck | apps/api/src/spaces/spaces.service.ts:143-152 | a missing space is NotFound; only the owner passes; anyone else is Forbidden |
| Spaces.MemberRoleChange | apps/api/src/spaces/spaces.service.ts:215-253 | the checks pass if and only if the space exists, the target is not its owner, and the caller is one of: the owner; a holder of OWNER; an ADMIN granting neither OWNER nor ADMIN to a member who is neither. A failed permission check keeps its error. |
| Spaces.OwnerRoleIsFixed | apps/api/src/spaces/spaces.service.ts:251-253 | nobody can change the owner's role |
| Spaces.AdminCannotPromote | apps/api/src/spaces/spaces.service.ts:228-231 | a non-owner ADMIN assigning OWNER or ADMIN is Forbidden |
| Spaces.MemberRemoval | apps/api/src/spaces/spaces.service.ts:260-292 | the checks pass if and only if the space exists, the target is not its owner, and the caller is one of: the owner; a holder of OWNER; an ADMIN removing a member who is neither OWNER nor ADMIN |
| Spaces.OwnerIsNeverRemoved | apps/api/src/spaces/spaces.service.ts:276-278 | the owner can never be removed |
| Spaces.JoinDecision | apps/api/src/spaces/spaces.service.ts:355-384 | the checks, in order: a missing or non-PENDING invitation is NotFound; an expired one (`expiresAt < now`) is marked EXPIRED; an email mismatch or unknown user is Forbidden; a member changes nothing; otherwise accept |
| Spaces.UsedInvitationIsNotFound | apps/api/src/spaces/spaces.service.ts:355-357 | an accepted or expired invitation can never be used again |
| Spaces.SpacesService.Create | apps/api/src/spaces/spaces.service.ts:31-52 | adds the space and its owner's OWNER permission |
| Spaces.SpacesService.Remove | apps/api/src/spaces/spaces.service.ts:143-157 | under RemoveCheck, deletes exactly that space, or returns the check's error with nothing changed |
| Spaces.SpacesService.UpdateMemberRole | apps/api/src/spaces/spaces.service.ts:215-259 | under MemberRoleChange, sets exactly the target's role; a target with no row is NotFound; the owner keeps OWNER (preserved invariant) |
| Spaces.SpacesService.RemoveMember | apps/api/src/spaces/spaces.service.ts:260-297 | under MemberRemoval, deletes exactly the target's row; a target with no row is NotFound; the owner keeps OWNER |
| Spaces.SpacesService.CreateInvitation | apps/api/src/spaces/spaces.service.ts:299-344 | after the owner/ADMIN check, an invitation with the same space and truthy email is reused with a new token, role and inviter, a 7-day expiry and PENDING; otherwise a new PENDING one is added |
| Spaces.SpacesService.FindInvitation | apps/api/src/spaces/spaces.service.ts:350-353 | the invitation with the token, or none if and only if no invitation has it |
| Spaces.SpacesService.JoinSpace | apps/api/src/spaces/spaces.service.ts:346-401 | applies JoinDecision: NotFound and Forbidden change nothing, except that expiry marks EXPIRED; a member is told so; acceptance adds the invitation's role and marks ACCEPTED; other invitations are untouched |
| Guard.RequestSpace | apps/api/src/common/guards/space-permission.guard.ts:22-33 | `body.spaceId \|\| query.spaceId`, replaced by the space of the document the route names; that document unknown is NotFound |
| Guard.CanActivate | apps/api/src/common/guards/space-permission.guard.ts:12-75 | false exactly without a user; true with no space; NotFound for an unknown document or space; true for GET on a public space; Forbidden without permission; Forbidden for a VIEWER write; true otherwise |
| Guard.AuthenticatedIsAllowedOrRaises | apps/api/src/common/guards/space-permission.guard.ts:14-74 | an authenticated request is allowed or raises, and is never answered false |
| Guard.ViewerReadsButDoesNotWrite | apps/api/src/common/guards/space-permission.guard.ts:63-74 | a VIEWER is allowed to read and refused POST, PATCH, PUT and DELETE |
| Guard.DocumentSpaceOverrides | apps/api/src/common/guards/space-permission.guard.ts:22-33 | with a document id, the body's spaceId does not affect the decision |
| Share.Gate | apps/api/src/share/share.service.ts:67-73 | a missing or inactive link is NotFound; then an expired one is Forbidden; expiry is `now > expiresAt`, and a null expiry never expires |
| Share.ExpiryIsStrict | apps/api/src/share/share.service.ts:71-73 | at the expiry instant the link is still valid; one millisecond later it is Forbidden |
| Share.NewShareLink | apps/api/src/share/share.service.ts:38-50 | a hash is stored if and only if the type is PASSWORD and a password is given; the type defaults to PUBLIC; the expiry is null when absent |
| Share.PasswordLinkWithoutPassword | apps/api/src/share/share.service.ts:38-41 | a PASSWORD link created without a password stores no hash |
| Share.GetShareInfo | apps/api/src/share/share.service.ts:53-83 | fails exactly when the gate fails, with its error; otherwise the public info, where hasPassword is `!!password`: a non-empty hash is stored |
| Share.VerifyPassword | apps/api/src/share/share.service.ts:85-110 | after the gate, a non-PASSWORD link gets a token unchecked; a PASSWORD link gets one only when the password matches the hash (or "" without one), else Unauthorized; the token's subject is the link's id |
| Share.TokenCheck | apps/api/src/share/share.service.ts:134-146 | a PASSWORD link passes if and only if a non-empty access token verifies to the link's id; every failure is Unauthorized |
| Share.IssuedTokenOpensContent | apps/api/src/share/share.service.ts:139-142 | a token issued by verifyPassword passes the content check of the same link |
| Share.ShareService.Create | apps/api/src/share/share.service.ts:20-51 | an unknown document is NotFound with nothing inserted; otherwise NewShareLink is inserted |
| Share.ShareService.GetContent | apps/api/src/share/share.service.ts:112-154 | after the gate, the view count grows by exactly one even when the token check then fails; the content is returned only when both pass |
| Admin.ClampPage | apps/api/src/admin/admin.service.ts:17 | page is at least 1, defaults to 1, and keeps an in-range value |
| Admin.ClampLimit | apps/api/src/admin/admin.service.ts:18 | limit lies in 1..100, defaults to 20, and keeps an in-range value |
| Admin.Skip | apps/api/src/admin/admin.service.ts:19 | skip is a non-negative multiple of limit: exactly page - 1 pages |
| Admin.Summarize | apps/api/src/admin/admin.service.ts:56-64 | a listed user carries every field but the password, with spaceCount and documentCount from the counts |
| Admin.GetUsers | apps/api/src/admin/admin.service.ts:16-67 | the response has the clamped page and limit and the total of all matches, and at most limit rows. The rows are those after skip, in order. |
| Admin.GetUserById | apps/api/src/admin/admin.service.ts:70-97 | NotFound if and only if the id is unknown; otherwise the user without password, their document count, and one entry per permission, in order, with its space's id and name and the role |
| Admin.Protection | apps/api/src/admin/admin.service.ts:119-131 | (and lines 146-154, the same guards of `deleteUser`) in order: a missing target is NotFound; a super-admin target and a self target are Forbidden; it passes otherwise, and only then |
| Admin.ProtectedAccounts | apps/api/src/admin/admin.service.ts:124-131 | a super-admin or oneself can never be disabled or deleted |
| Admin.AdminService.UpdateStatus | apps/api/src/admin/admin.service.ts:114-139 | under Protection, only the target's isDisabled changes, and the new value is returned; otherwise nothing changes |
| Admin.AdminService.DeleteUser | apps/api/src/admin/admin.service.ts:142-158 | under Protection, only the target is removed; otherwise nothing changes |
| Users.WithoutPassword | apps/api/src/users/users.service.ts:39 | (and lines 70 and 105) the returned user keeps every field but the password, which it has no field for |
| Users.BaseUrl | apps/api/src/users/users.service.ts:120 | the endpoint when non-empty, otherwise `http://localhost:9000` |
| Users.TransformUser | apps/api/src/users/users.service.ts:110-124 | null stays null; a non-empty avatar path not starting with `http` becomes base + "/" + path; anything else is unchanged |
| Users.TransformUserIdempotent | apps/api/src/users/users.service.ts:119-122 | transforming twice equals transforming once when the endpoint starts with `http` |
| Users.TransformUserKeepsOtherFields | apps/api/src/users/users.service.ts:119-123 | only avatarUrl may change, and a defined avatar stays defined |
| Users.UsersService.Create | apps/api/src/users/users.service.ts:13-41 | a registered email is Conflict with nothing inserted; otherwise the row with the hash is inserted and returned transformed, without password; emails stay unique |
| Users.UsersService.FindById | apps/api/src/users/users.service.ts:61-72 | NotFound if and only if the id is unknown; otherwise the row transformed, without password |
| Users.UsersService.UpdateAvatar | apps/api/src/users/users.service.ts:99-107 | only the row's avatar changes, and it is returned transformed, without password |
| Cdn.StripTrailingSlash | apps/web/src/lib/cdn.ts:13 | removes one trailing slash, if present, and nothing else |
| Cdn.StripsOnlyOneSlash | apps/web/src/lib/cdn.ts:13 | a base ending in `//` keeps one slash |
| Cdn.Base | apps/web/src/lib/cdn.ts:13 | the configured value (even an empty one) or `http://localhost:9000`, trailing slash stripped |
| Cdn.GetCdnUrl | apps/web/src/lib/cdn.ts:9-15 | undefined if and only if the path is absent or empty; a full http(s) URL is returned unchanged; anything else becomes base + "/" + path |
| Cdn.GetCdnUrlEndsWithPath | apps/web/src/lib/cdn.ts:12-14 | a defined result always ends with the input path |
| Cdn.GetCdnUrlIdempotent | apps/web/src/lib/cdn.ts:12-14 | applying getCdnUrl to its own result changes nothing when the stripped base is an http(s) URL |

## Left out

- Termination of the ancestor walk.
  - `EnsureNoCircularRef` carries a ghost bound `n` on the walk: it stops when it meets the moving id or when it ends. `Documents.DocumentsService.Move` requires that bound to exist only for a stored id and a truthy target (`CheckReturns`); an unknown id is NotFound before any walk.
  - The source recursion then returns, including on a cycle through the moving document, which it rejects with BadRequest.
  - It diverges only when the table already has a cycle above the target that does not pass through the moving document. That case is not modelled.
  - Nothing keeps such a cycle out of the table: Create accepts a parentId with no row, and a later row can take that id.
- Documents.DocumentsService.Create requires a parentId that is not the empty string.
  - The source looks siblings up with `parentId || null` but stores `parentId` unchanged.
  - The request validation, which is not part of this model, rules out an empty string.
- Documents.DocumentsService.Remove deletes only the row.
  - The database's foreign-key behaviour for children, share links and the creator relation is not modelled. The schema is not part of this model.
  - The same holds for Spaces.SpacesService.Remove, which leaves the space's permission and invitation rows in place.
- The ties in `findFirst`/`findMany` ordering are the database's choice.
  - The model picks any answer that meets the query.
  - `findAll` of spaces is modelled as a map, so its most-recently-updated order is not modelled.
- DocumentTree.Render bounds the nesting depth by the number of nodes (`fuel`).
  - The model does not prove that this bound is never reached on an acyclic forest with unique ids.
  - It also does not prove that every node reachable from the roots is rendered.
  - What it does prove: every rendered row is a root, or a child of an expanded row rendered before it.
- DocumentTree.SortChildren sorts every children list.
  - The source sorts only the lists reachable from the roots.
  - The two differ only on documents stuck in a parent cycle, which the view never shows.
- DocumentTree.BuildTree does not require unique ids, and on duplicate ids it still terminates.
  - The source can diverge there: with {id x, no parent} and {id x, parent x}, the node for x is pushed onto its own children, and `sortRecursive` recurses until the stack overflows.
  - The forest lemmas assume unique ids, which the server's primary key guarantees.
- `order` is a JavaScript number, modelled as an exact real.
  - Floating-point rounding is not modelled.
  - JavaScript's `sort` is stable, and so is the model's insertion sort, but stability is not stated as a contract.
- The web client's loading flag, toasts, router redirect after delete, and `window` events (`document-updated`) are UI effects and are left out.
  - React's asynchronous state updates are modelled as a sequence.
  - The move's snapshot is the list when the call begins.
- bcrypt, JWT, `randomUUID`, database-generated ids and the clock are inputs, not computed.
  - `new Date()` is the integer `now`.
  - The invitation's 7-day expiry is a fixed 604800000 ms, so daylight-saving calendar arithmetic is not modelled.
  - The JWT's one-hour lifetime is inside `verify`.
- A Prisma `update` or `delete` of a missing row raises its own error, modelled as NotFound. This affects documents `remove`, `updateMemberRole`, `removeMember` and `updateAvatar`.
- New users get `isDisabled` and `isSuperAdmin` false, and a new share link is active with no views (Share.NewShareLink). These are the schema defaults, assumed, because the schema is not part of this model.
- Admin.GetUsers receives the rows that the search and space filters select, newest first (`createdAt` descending), as an input.
  - The filters themselves (case-insensitive `contains`) are not modelled.
  - `page` and `limit` are taken as parsed integers, since the request validation admits only numeric strings.
  - A non-numeric value, which `parseInt` would turn into NaN, is not modelled.
- admin.service.ts `updatePassword` and `getSpaces`, users.service.ts `findByEmail`, `findByEmailWithPassword`, `validatePassword` and `updatePassword`, and spaces.service.ts `update` and `getMembers` are outside the modelled core. They are plain reads or writes.
- Share.ShareService.GetContent increments the view count synchronously, while the source fires the update without awaiting it. A failure of that update is only logged in the source.
- The authentication service, the controllers, the HTTP clients of the web client, the MinIO storage service and the shared role constants are not part of this model.
