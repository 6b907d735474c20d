/** The user table and its service (apps/api/src/users/users.service.ts). Password hashing
    is bcrypt's: the hash is an input. The public MinIO endpoint (MINIO_PUBLIC_ENDPOINT)
    is an input too. */
module Users {
  import opened Wrappers

  type UserId = string

  /** A row of the user table. */
  datatype UserRow = UserRow(
    id: UserId,
    email: string,
    name: string,
    password: string,
    avatarUrl: Option<string>,
    isDisabled: bool,
    isSuperAdmin: bool)

  /** A user as the service returns it: every field but `password`. */
  datatype PublicUser = PublicUser(
    id: UserId,
    email: string,
    name: string,
    avatarUrl: Option<string>,
    isDisabled: bool,
    isSuperAdmin: bool)

  /** `const { password: _, ...result } = user` */
  function WithoutPassword(u: UserRow): (r: PublicUser)
    ensures r.id == u.id && r.email == u.email && r.name == u.name
    ensures r.avatarUrl == u.avatarUrl && r.isDisabled == u.isDisabled && r.isSuperAdmin == u.isSuperAdmin
  {
    PublicUser(u.id, u.email, u.name, u.avatarUrl, u.isDisabled, u.isSuperAdmin)
  }

  const DefaultEndpoint: string := "http://localhost:9000"

  /** `process.env.MINIO_PUBLIC_ENDPOINT || 'http://localhost:9000'`: an empty value also
      falls back to the default. */
  function BaseUrl(env: Option<string>): (r: string)
    ensures Truthy(env) ==> r == env.value
    ensures !Truthy(env) ==> r == DefaultEndpoint
  {
    if Truthy(env) then env.value else DefaultEndpoint
  }

  /** Whether an avatar path is relative storage: non-empty and not starting with `http`. */
  predicate NeedsPrefix(avatarUrl: Option<string>) {
    Truthy(avatarUrl) && !StartsWith(avatarUrl.value, "http")
  }

  /** `transformUser`: no user stays no user; a relative avatar path is prefixed with the
      endpoint and a slash; every other field, and any other avatar value, is kept. */
  function TransformUser(user: Option<PublicUser>, env: Option<string>): (r: Option<PublicUser>)
    ensures user.None? <==> r.None?
    ensures user.Some? && NeedsPrefix(user.value.avatarUrl) ==>
      r == Some(user.value.(avatarUrl := Some(BaseUrl(env) + "/" + user.value.avatarUrl.value)))
    ensures user.Some? && !NeedsPrefix(user.value.avatarUrl) ==> r == user
  {
    match user
    case None => None
    case Some(u) =>
      if NeedsPrefix(u.avatarUrl) then
        Some(u.(avatarUrl := Some(BaseUrl(env) + "/" + u.avatarUrl.value)))
      else
        Some(u)
  }

  /** Transforming twice is transforming once whenever the endpoint starts with `http`. */
  lemma {:induction false} TransformUserIdempotent(user: Option<PublicUser>, env: Option<string>)
    requires StartsWith(BaseUrl(env), "http")
    ensures TransformUser(TransformUser(user, env), env) == TransformUser(user, env)
  {
    if user.Some? && NeedsPrefix(user.value.avatarUrl) {
      var base := BaseUrl(env);
      var url := base + "/" + user.value.avatarUrl.value;
      assert url[..|"http"|] == base[..|"http"|];
      assert !NeedsPrefix(Some(url));
    }
  }

  /** The transformed user differs from the input at most in `avatarUrl`, and a defined
      avatar stays defined. */
  lemma TransformUserKeepsOtherFields(u: PublicUser, env: Option<string>)
    ensures var r := TransformUser(Some(u), env).value;
      r.id == u.id && r.email == u.email && r.name == u.name &&
      r.isDisabled == u.isDisabled && r.isSuperAdmin == u.isSuperAdmin &&
      (u.avatarUrl.Some? <==> r.avatarUrl.Some?)
  {
  }

  /** Email addresses are unique in the table and each row is stored under its id. */
  ghost predicate WellKeyed(users: map<UserId, UserRow>) {
    (forall k :: k in users ==> users[k].id == k) &&
    (forall a, b :: a in users && b in users && users[a].email == users[b].email ==> a == b)
  }

  /** Whether some row has the email: `findUnique({ where: { email } })`. */
  predicate HasEmail(users: map<UserId, UserRow>, email: string) {
    exists k :: k in users && users[k].email == email
  }

  class UsersService {
    var users: map<UserId, UserRow>
    /** MINIO_PUBLIC_ENDPOINT */
    const endpoint: Option<string>

    ghost predicate Valid()
      reads this
    {
      WellKeyed(users)
    }

    constructor (endpoint: Option<string>)
      ensures Valid() && users == map[] && this.endpoint == endpoint
    {
      users := map[];
      this.endpoint := endpoint;
    }

    /** `create` (lines 13-41): an email that is already registered raises Conflict and
        inserts nothing; otherwise the row is inserted with the hashed password and returned
        without it. `id` is the id the database assigns, `hashedPassword` bcrypt's hash. */
    method Create(id: UserId, email: string, name: string, hashedPassword: string)
      returns (r: Result<PublicUser>)
      requires Valid() && id !in users
      modifies this
      ensures Valid()
      ensures old(HasEmail(users, email)) ==> r == Err(Conflict) && users == old(users)
      ensures !old(HasEmail(users, email)) ==>
        var row := UserRow(id, email, name, hashedPassword, None, false, false);
        users == old(users)[id := row] && r == Ok(TransformUser(Some(WithoutPassword(row)), endpoint).value)
    {
      if HasEmail(users, email) {
        return Err(Conflict);
      }
      var row := UserRow(id, email, name, hashedPassword, None, false, false);
      users := users[id := row];
      r := Ok(TransformUser(Some(WithoutPassword(row)), endpoint).value);
    }

    /** `findById` (lines 61-72): an unknown id raises NotFound; otherwise the row is
        returned without its password. */
    method FindById(id: UserId) returns (r: Result<PublicUser>)
      ensures id !in users <==> r == Err(NotFound)
      ensures id in users ==> r == Ok(TransformUser(Some(WithoutPassword(users[id])), endpoint).value)
    {
      if id !in users {
        return Err(NotFound);
      }
      r := Ok(TransformUser(Some(WithoutPassword(users[id])), endpoint).value);
    }

    /** `updateAvatar` (lines 99-107): the row's avatar path is replaced and the row returned
        without its password. Updating an unknown id makes the database raise its
        record-not-found error, modelled as NotFound. */
    method UpdateAvatar(userId: UserId, avatarUrl: string) returns (r: Result<PublicUser>)
      requires Valid()
      modifies this
      ensures Valid()
      ensures userId !in old(users) ==> r == Err(NotFound) && users == old(users)
      ensures userId in old(users) ==>
        var row := old(users)[userId].(avatarUrl := Some(avatarUrl));
        users == old(users)[userId := row] && r == Ok(TransformUser(Some(WithoutPassword(row)), endpoint).value)
    {
      if userId !in users {
        return Err(NotFound);
      }
      var row := users[userId].(avatarUrl := Some(avatarUrl));
      users := users[userId := row];
      r := Ok(TransformUser(Some(WithoutPassword(row)), endpoint).value);
    }
  }
}
