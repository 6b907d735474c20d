/** The per-request space permission guard
    (apps/api/src/common/guards/space-permission.guard.ts): which space a request is
    about, and whether its user may read or write there. */
module Guard {
  import opened Wrappers
  import opened DocModel
  import opened Spaces

  /** The parts of an HTTP request the guard reads. Absent fields are None. */
  datatype Request = Request(
    user: Option<UserId>,
    httpMethod: string,
    bodySpaceId: Option<string>,
    querySpaceId: Option<string>,
    paramId: Option<string>)

  /** `['POST', 'PATCH', 'PUT', 'DELETE'].includes(method)` */
  predicate IsWrite(httpMethod: string) {
    httpMethod in {"POST", "PATCH", "PUT", "DELETE"}
  }

  /** The space a request is about: `body?.spaceId || query?.spaceId`, replaced by the
      document's space when the route names a document; an unknown document raises NotFound. */
  function RequestSpace(req: Request, documents: map<Id, Doc>): (r: Result<Option<string>>)
    ensures Truthy(req.paramId) && req.paramId.value !in documents <==> r == Err(NotFound)
    ensures Truthy(req.paramId) && req.paramId.value in documents ==>
      r == Ok(Some(documents[req.paramId.value].spaceId))
    ensures !Truthy(req.paramId) ==> r == Ok(if Truthy(req.bodySpaceId) then req.bodySpaceId else req.querySpaceId)
  {
    var fromRequest := if Truthy(req.bodySpaceId) then req.bodySpaceId else req.querySpaceId;
    if Truthy(req.paramId) then
      if req.paramId.value !in documents then Err(NotFound)
      else Ok(Some(documents[req.paramId.value].spaceId))
    else Ok(fromRequest)
  }

  /** `canActivate`: false without a user; true when no space can be determined; NotFound
      for an unknown document or space; true for a GET on a public space; Forbidden for a
      user with no permission there; Forbidden for a write by a role other than OWNER,
      ADMIN or EDITOR; true otherwise. */
  function CanActivate(req: Request, documents: map<Id, Doc>, spaces: map<SpaceId, Space>, perms: Permissions)
    : (r: Result<bool>)
    ensures req.user.None? <==> r == Ok(false)
    ensures req.user.Some? && RequestSpace(req, documents).Err? ==> r == Err(NotFound)
    ensures req.user.Some? && RequestSpace(req, documents).Ok? ==>
      var spaceId := RequestSpace(req, documents).value;
      (!Truthy(spaceId) ==> r == Ok(true)) &&
      (Truthy(spaceId) && spaceId.value !in spaces ==> r == Err(NotFound)) &&
      (Truthy(spaceId) && spaceId.value in spaces ==>
        var key := (req.user.value, spaceId.value);
        (spaces[spaceId.value].isPublic && req.httpMethod == "GET" ==> r == Ok(true)) &&
        (!(spaces[spaceId.value].isPublic && req.httpMethod == "GET") ==>
          (key !in perms ==> r == Err(Forbidden)) &&
          (key in perms ==>
            r == if IsWrite(req.httpMethod) && perms[key] == VIEWER then Err(Forbidden) else Ok(true))))
  {
    if req.user.None? then Ok(false)
    else
      match RequestSpace(req, documents)
      case Err(e) => Err(e)
      case Ok(spaceId) =>
        if !Truthy(spaceId) then Ok(true)
        else if spaceId.value !in spaces then Err(NotFound)
        else
          var space := spaces[spaceId.value];
          var key := (req.user.value, spaceId.value);
          if space.isPublic && req.httpMethod == "GET" then Ok(true)
          else if key !in perms then Err(Forbidden)
          else if IsWrite(req.httpMethod) && perms[key] !in {OWNER, ADMIN, EDITOR} then Err(Forbidden)
          else Ok(true)
  }

  /** The guard never answers false to an authenticated request: it allows or raises. */
  lemma AuthenticatedIsAllowedOrRaises(req: Request, documents: map<Id, Doc>, spaces: map<SpaceId, Space>,
                                       perms: Permissions)
    requires req.user.Some?
    ensures CanActivate(req, documents, spaces, perms) != Ok(false)
  {
  }

  /** A VIEWER may read a space but not write to it. */
  lemma ViewerReadsButDoesNotWrite(req: Request, documents: map<Id, Doc>, spaces: map<SpaceId, Space>,
                                   perms: Permissions, spaceId: SpaceId)
    requires req.user.Some? && RequestSpace(req, documents) == Ok(Some(spaceId)) && spaceId != ""
    requires spaceId in spaces && (req.user.value, spaceId) in perms && perms[(req.user.value, spaceId)] == VIEWER
    ensures !IsWrite(req.httpMethod) ==> CanActivate(req, documents, spaces, perms) == Ok(true)
    ensures IsWrite(req.httpMethod) ==> CanActivate(req, documents, spaces, perms) == Err(Forbidden)
  {
  }

  /** A request about a document is judged by that document's space, whatever space the
      body or query names. */
  lemma DocumentSpaceOverrides(req: Request, documents: map<Id, Doc>, spaces: map<SpaceId, Space>,
                               perms: Permissions, other: Option<string>)
    requires Truthy(req.paramId)
    ensures CanActivate(req.(bodySpaceId := other), documents, spaces, perms) == CanActivate(req, documents, spaces, perms)
  {
  }
}
