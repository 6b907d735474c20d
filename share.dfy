/** Share links (apps/api/src/share/share.service.ts): creating a link to a document, and
    the access gate a visitor passes to see it (active, not expired, and for a
    password link a verified password and an access token issued for that link).
    bcrypt's hash and compare and the JWT sign and verify are inputs, and time is an
    integer clock `now` in milliseconds. */
module Share {
  import opened Wrappers
  import opened DocModel

  datatype ShareType = PUBLIC | PASSWORD

  /** A row of the share-link table. `password` is the bcrypt hash, or SQL `null`. */
  datatype ShareLink = ShareLink(
    id: string,
    token: string,
    documentId: Id,
    shareType: ShareType,
    password: Option<string>,
    expiresAt: Option<int>,
    isActive: bool,
    viewCount: nat)

  /** The create request; absent (or empty) fields are None. */
  datatype CreateShare = CreateShare(
    documentId: Id,
    shareType: Option<ShareType>,
    password: Option<string>,
    expiresAt: Option<int>)

  /** The public description of a link. */
  datatype ShareInfo = ShareInfo(
    token: string,
    shareType: ShareType,
    documentTitle: string,
    expiresAt: Option<int>,
    hasPassword: bool)

  /** The access token: a signed JWT whose subject is the share id. */
  datatype AccessToken = AccessToken(sub: string)

  /** What a visitor sees. */
  datatype Content = Content(title: string, content: string)

  /** Expiry is strict: a link is expired only after its instant has passed, and a link
      without an expiry never expires. */
  predicate Expired(s: ShareLink, now: int) {
    s.expiresAt.Some? && now > s.expiresAt.value
  }

  /** The checks `getShareInfo`, `verifyPassword` and `getContent` all start with: a
      missing or inactive link raises NotFound, then an expired one raises Forbidden. */
  function Gate(share: Option<ShareLink>, now: int): (r: Outcome)
    ensures (share.None? || !share.value.isActive) <==> r == Fail(NotFound)
    ensures share.Some? && share.value.isActive && Expired(share.value, now) <==> r == Fail(Forbidden)
    ensures r.Pass? <==> share.Some? && share.value.isActive && !Expired(share.value, now)
  {
    if share.None? || !share.value.isActive then Fail(NotFound)
    else if Expired(share.value, now) then Fail(Forbidden)
    else Pass
  }

  /** The expiry instant itself is still valid; one millisecond later is not. */
  lemma ExpiryIsStrict(s: ShareLink, now: int)
    requires s.isActive && s.expiresAt == Some(now)
    ensures Gate(Some(s), now) == Pass
    ensures Gate(Some(s), now + 1) == Fail(Forbidden)
  {
  }

  /** The row `create` inserts: the hash is stored only for a PASSWORD link with a
      non-empty password, the type defaults to PUBLIC, and an absent expiry is null.
      `hash` is bcrypt's hash of the password; `id` and `token` are the database's
      generated values; a new link is active and unviewed. */
  function NewShareLink(dto: CreateShare, hash: string, id: string, token: string): (r: ShareLink)
    ensures r.documentId == dto.documentId && r.id == id && r.token == token
    ensures r.password.Some? <==> dto.shareType == Some(PASSWORD) && Truthy(dto.password)
    ensures r.password.Some? ==> r.password.value == hash
    ensures dto.shareType.None? ==> r.shareType == PUBLIC
    ensures dto.shareType.Some? ==> r.shareType == dto.shareType.value
    ensures r.expiresAt == dto.expiresAt
    ensures r.isActive && r.viewCount == 0
  {
    var hashed := if dto.shareType == Some(PASSWORD) && Truthy(dto.password) then Some(hash) else None;
    var shareType := if dto.shareType.Some? then dto.shareType.value else PUBLIC;
    ShareLink(id, token, dto.documentId, shareType, hashed, dto.expiresAt, true, 0)
  }

  /** The token table is keyed by token, and every link names a stored document. */
  ghost predicate WellFormed(shares: map<string, ShareLink>, documents: map<Id, Doc>) {
    forall t :: t in shares ==> shares[t].token == t && shares[t].documentId in documents
  }

  /** `getShareInfo` (lines 53-83): after the gate, the link's public description, where
      `hasPassword` is `!!share.password`: a hash is stored and is not empty. */
  function GetShareInfo(shares: map<string, ShareLink>, documents: map<Id, Doc>, token: string, now: int)
    : (r: Result<ShareInfo>)
    requires forall t :: t in shares ==> shares[t].documentId in documents
    ensures var g := Gate(if token in shares then Some(shares[token]) else None, now);
      (g.Fail? <==> r.Err?) && (g.Fail? ==> r.error == g.error)
    ensures r.Ok? ==> (token in shares &&
      var s := shares[token];
      r.value == ShareInfo(s.token, s.shareType, documents[s.documentId].title, s.expiresAt, Truthy(s.password)))
  {
    var share := if token in shares then Some(shares[token]) else None;
    var g := Gate(share, now);
    if g.Fail? then Err(g.error)
    else
      var s := share.value;
      Ok(ShareInfo(s.token, s.shareType, documents[s.documentId].title, s.expiresAt, Truthy(s.password)))
  }

  /** `verifyPassword` (lines 85-110): after the gate, a link that is not a PASSWORD link
      issues a token unchecked; a PASSWORD link compares the password with the stored hash
      (an empty one when none is stored) and raises Unauthorized on a mismatch. `compare`
      is bcrypt's compare. The token issued is always for the link itself. */
  function VerifyPassword(share: Option<ShareLink>, now: int, password: string, compare: (string, string) -> bool)
    : (r: Result<AccessToken>)
    ensures Gate(share, now).Fail? ==> r == Err(Gate(share, now).error)
    ensures Gate(share, now).Pass? && share.value.shareType != PASSWORD ==> r == Ok(AccessToken(share.value.id))
    ensures Gate(share, now).Pass? && share.value.shareType == PASSWORD ==>
      var hash := if share.value.password.Some? then share.value.password.value else "";
      r == if compare(password, hash) then Ok(AccessToken(share.value.id)) else Err(Unauthorized)
  {
    var g := Gate(share, now);
    if g.Fail? then Err(g.error)
    else if share.value.shareType != PASSWORD then Ok(AccessToken(share.value.id))
    else
      var hash := if share.value.password.Some? then share.value.password.value else "";
      if compare(password, hash) then Ok(AccessToken(share.value.id)) else Err(Unauthorized)
  }

  /** The password step of `getContent` (lines 134-146): a PASSWORD link needs a non-empty
      access token that verifies to a payload whose subject is the link's id; anything else
      is Unauthorized. `verify` is the JWT verification, None when it throws. */
  function TokenCheck(s: ShareLink, accessToken: Option<string>, verify: string -> Option<AccessToken>): (r: Outcome)
    ensures s.shareType != PASSWORD ==> r == Pass
    ensures s.shareType == PASSWORD ==>
      (r.Pass? <==> Truthy(accessToken) && verify(accessToken.value) == Some(AccessToken(s.id)))
    ensures r.Fail? ==> r.error == Unauthorized
  {
    if s.shareType != PASSWORD then Pass
    else if !Truthy(accessToken) then Fail(Unauthorized)
    else
      match verify(accessToken.value)
      case None => Fail(Unauthorized)
      case Some(payload) => if payload.sub != s.id then Fail(Unauthorized) else Pass
  }

  /** A token issued by `verifyPassword` for a link opens that link's content, provided
      the JWT verification returns what was signed. */
  lemma IssuedTokenOpensContent(share: Option<ShareLink>, now: int, password: string,
                                compare: (string, string) -> bool, jwt: string,
                                verify: string -> Option<AccessToken>)
    requires VerifyPassword(share, now, password, compare).Ok?
    requires verify(jwt) == Some(VerifyPassword(share, now, password, compare).value)
    requires jwt != ""
    ensures share.Some? && TokenCheck(share.value, Some(jwt), verify) == Pass
  {
  }

  /** A PASSWORD link created without a password stores no hash, so its password is
      checked against the empty hash. */
  lemma PasswordLinkWithoutPassword(dto: CreateShare, hash: string, id: string, token: string)
    requires dto.shareType == Some(PASSWORD) && !Truthy(dto.password)
    ensures var s := NewShareLink(dto, hash, id, token);
      s.shareType == PASSWORD && s.password.None?
  {
  }

  class ShareService {
    var shares: map<string, ShareLink>
    var documents: map<Id, Doc>

    ghost predicate Valid()
      reads this
    {
      WellFormed(shares, documents)
    }

    constructor (documents: map<Id, Doc>)
      ensures Valid() && shares == map[] && this.documents == documents
    {
      shares := map[];
      this.documents := documents;
    }

    /** `create` (lines 20-51): an unknown document raises NotFound; otherwise the new link
        is inserted and returned. */
    method Create(dto: CreateShare, hash: string, id: string, token: string) returns (r: Result<ShareLink>)
      requires Valid() && token !in shares
      modifies this`shares
      ensures Valid()
      ensures dto.documentId !in documents ==> r == Err(NotFound) && shares == old(shares)
      ensures dto.documentId in documents ==>
        r == Ok(NewShareLink(dto, hash, id, token)) && shares == old(shares)[token := r.value]
    {
      if dto.documentId !in documents {
        return Err(NotFound);
      }
      var s := NewShareLink(dto, hash, id, token);
      shares := shares[token := s];
      r := Ok(s);
    }

    /** `getContent` (lines 112-154): once the gate passes, the view count is incremented,
        whether or not the token check that follows succeeds; a link that passes both gets
        its document's title and content. */
    method GetContent(token: string, now: int, accessToken: Option<string>, verify: string -> Option<AccessToken>)
      returns (r: Result<Content>)
      requires Valid()
      modifies this`shares
      ensures Valid()
      ensures var share := if token in old(shares) then Some(old(shares)[token]) else None;
        var g := Gate(share, now);
        (g.Fail? ==> r == Err(g.error) && shares == old(shares)) &&
        (g.Pass? ==> (
          var s := share.value;
          shares == old(shares)[token := s.(viewCount := s.viewCount + 1)] &&
          var c := TokenCheck(s, accessToken, verify);
          (c.Fail? ==> r == Err(c.error)) &&
          (c.Pass? ==> r == Ok(Content(documents[s.documentId].title, documents[s.documentId].content)))))
    {
      var share := if token in shares then Some(shares[token]) else None;
      var g := Gate(share, now);
      if g.Fail? {
        return Err(g.error);
      }
      var s := share.value;
      shares := shares[token := s.(viewCount := s.viewCount + 1)];
      var c := TokenCheck(s, accessToken, verify);
      if c.Fail? {
        return Err(c.error);
      }
      r := Ok(Content(documents[s.documentId].title, documents[s.documentId].content));
    }
  }
}
