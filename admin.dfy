/** The administrator's user management (apps/api/src/admin/admin.service.ts): the paged
    user list, the user detail, and disabling or deleting an account under the self and
    super-administrator protections. */
module Admin {
  import opened Wrappers
  import opened Users

  /** A user together with the relations the admin queries include: their space
      permissions (with the space's name) and the number of documents they created. */
  datatype Membership = Membership(spaceId: string, spaceName: string, role: string)
  datatype Account = Account(row: UserRow, permissions: seq<Membership>, createdDocuments: nat)

  /** The query string of the list; `page` and `limit` are numeric strings, so their
      parsed values are the inputs, and None is an absent parameter. */
  datatype UserQuery = UserQuery(page: Option<int>, limit: Option<int>)

  /** A listed user: the row without its password, plus the two counts. */
  datatype UserSummary = UserSummary(user: PublicUser, spaceCount: nat, documentCount: nat)
  datatype UserPage = UserPage(data: seq<UserSummary>, total: nat, page: int, limit: int)

  /** `Math.max(1, parseInt(page ?? '1'))` */
  function ClampPage(page: Option<int>): (r: int)
    ensures r >= 1
    ensures page.None? ==> r == 1
    ensures page.Some? && page.value >= 1 ==> r == page.value
    ensures page.Some? && page.value < 1 ==> r == 1
  {
    var p := if page.Some? then page.value else 1;
    if p < 1 then 1 else p
  }

  /** `Math.min(100, Math.max(1, parseInt(limit ?? '20')))` */
  function ClampLimit(limit: Option<int>): (r: int)
    ensures 1 <= r <= 100
    ensures limit.None? ==> r == 20
    ensures limit.Some? && 1 <= limit.value <= 100 ==> r == limit.value
    ensures limit.Some? && limit.value < 1 ==> r == 1
    ensures limit.Some? && limit.value > 100 ==> r == 100
  {
    var l := if limit.Some? then limit.value else 20;
    var atLeastOne := if l < 1 then 1 else l;
    if atLeastOne > 100 then 100 else atLeastOne
  }

  /** `(page - 1) * limit`: the rows before the requested page. */
  function Skip(page: int, limit: int): (r: nat)
    requires page >= 1 && limit >= 1
    ensures r % limit == 0 && r / limit == page - 1
  {
    PagesBefore(page - 1, limit);
    (page - 1) * limit
  }

  /** `k` whole pages of `n` rows are `k * n` rows, a multiple of `n`. */
  lemma PagesBefore(k: nat, n: int)
    requires n >= 1
    ensures k * n >= 0 && (k * n) % n == 0 && (k * n) / n == k
  {
    var x := k * n;
    var d, m := x / n, x % n;
    assert x == d * n + m && 0 <= m < n;
    assert (k - d) * n == m;
    ProductBounds(k - d, n);
  }

  /** A non-zero multiple of `n` is at least `n` away from zero. */
  lemma ProductBounds(a: int, n: int)
    requires n >= 1
    ensures a >= 1 ==> a * n >= n
    ensures a <= -1 ==> a * n <= -n
  {
  }

  /** The projection of one listed row: every field but the password, with the counts
      of space permissions and created documents. */
  function Summarize(a: Account): (r: UserSummary)
    ensures r.user == WithoutPassword(a.row)
    ensures r.spaceCount == |a.permissions| && r.documentCount == a.createdDocuments
  {
    UserSummary(WithoutPassword(a.row), |a.permissions|, a.createdDocuments)
  }

  function SummarizeAll(s: seq<Account>): (r: seq<UserSummary>)
    ensures |r| == |s|
    ensures forall i :: 0 <= i < |s| ==> r[i] == Summarize(s[i])
  {
    if s == [] then [] else [Summarize(s[0])] + SummarizeAll(s[1..])
  }

  /** `getUsers` (lines 16-67). `matching` is what the where-filter selects, newest first;
      the database skips `skip` of them and takes at most `limit`, and `total` counts all. */
  function GetUsers(query: UserQuery, matching: seq<Account>): (r: UserPage)
    ensures r.page == ClampPage(query.page) && r.limit == ClampLimit(query.limit)
    ensures r.total == |matching|
    ensures |r.data| <= r.limit
    ensures var skip := Skip(r.page, r.limit);
      (skip >= |matching| ==> r.data == []) &&
      (skip < |matching| ==> |r.data| == if skip + r.limit <= |matching| then r.limit else |matching| - skip) &&
      forall i :: 0 <= i < |r.data| ==> skip + i < |matching| && r.data[i] == Summarize(matching[skip + i])
  {
    var page := ClampPage(query.page);
    var limit := ClampLimit(query.limit);
    var skip := Skip(page, limit);
    var window := if skip >= |matching| then []
                  else if skip + limit <= |matching| then matching[skip..skip + limit]
                  else matching[skip..];
    UserPage(SummarizeAll(window), |matching|, page, limit)
  }

  /** The detail view of a user: the row without its password, the spaces they hold a
      permission in with their role there, and the number of documents they created. */
  datatype SpaceEntry = SpaceEntry(id: string, name: string, role: string)
  datatype UserDetail = UserDetail(user: PublicUser, spaces: seq<SpaceEntry>, documentCount: nat)

  function SpaceEntries(ps: seq<Membership>): (r: seq<SpaceEntry>)
    ensures |r| == |ps|
    ensures forall i :: 0 <= i < |ps| ==> r[i] == SpaceEntry(ps[i].spaceId, ps[i].spaceName, ps[i].role)
  {
    if ps == [] then [] else [SpaceEntry(ps[0].spaceId, ps[0].spaceName, ps[0].role)] + SpaceEntries(ps[1..])
  }

  /** `getUserById` (lines 70-97): an unknown id raises NotFound. */
  function GetUserById(accounts: map<UserId, Account>, userId: UserId): (r: Result<UserDetail>)
    ensures userId !in accounts <==> r == Err(NotFound)
    ensures userId in accounts ==>
      r.Ok? && r.value.user == WithoutPassword(accounts[userId].row) &&
      r.value.documentCount == accounts[userId].createdDocuments
    ensures userId in accounts ==>
      var ps := accounts[userId].permissions;
      |r.value.spaces| == |ps| &&
      forall i :: 0 <= i < |ps| ==> r.value.spaces[i] == SpaceEntry(ps[i].spaceId, ps[i].spaceName, ps[i].role)
  {
    if userId !in accounts then Err(NotFound)
    else
      var a := accounts[userId];
      Ok(UserDetail(WithoutPassword(a.row), SpaceEntries(a.permissions), a.createdDocuments))
  }

  /** The guards `updateStatus` and `deleteUser` share, in their order: an unknown target
      raises NotFound, then a super-administrator target raises Forbidden, then acting on
      oneself raises Forbidden. */
  function Protection(accounts: map<UserId, Account>, currentUserId: UserId, targetUserId: UserId): (r: Outcome)
    ensures targetUserId !in accounts <==> r == Fail(NotFound)
    ensures r.Pass? <==>
      targetUserId in accounts && !accounts[targetUserId].row.isSuperAdmin && currentUserId != targetUserId
    ensures r.Fail? && r.error != NotFound ==> r.error == Forbidden
  {
    if targetUserId !in accounts then Fail(NotFound)
    else if accounts[targetUserId].row.isSuperAdmin then Fail(Forbidden)
    else if currentUserId == targetUserId then Fail(Forbidden)
    else Pass
  }

  /** No administrator can disable or delete a super-administrator, or themselves. */
  lemma ProtectedAccounts(accounts: map<UserId, Account>, currentUserId: UserId, targetUserId: UserId)
    requires targetUserId in accounts
    requires accounts[targetUserId].row.isSuperAdmin || currentUserId == targetUserId
    ensures Protection(accounts, currentUserId, targetUserId) == Fail(Forbidden)
  {
  }

  class AdminService {
    var accounts: map<UserId, Account>

    constructor (accounts: map<UserId, Account>)
      ensures this.accounts == accounts
    {
      this.accounts := accounts;
    }

    /** `updateStatus` (lines 114-139): after the guards pass, only the target's
        `isDisabled` changes; the new value is returned. */
    method UpdateStatus(currentUserId: UserId, targetUserId: UserId, isDisabled: bool)
      returns (r: Result<bool>)
      modifies this
      ensures var guard := old(Protection(accounts, currentUserId, targetUserId));
        (guard.Fail? ==> r == Err(guard.error) && accounts == old(accounts)) &&
        (guard.Pass? ==> (r == Ok(isDisabled) &&
          accounts == old(accounts)[targetUserId :=
            old(accounts)[targetUserId].(row := old(accounts)[targetUserId].row.(isDisabled := isDisabled))]))
    {
      var guard := Protection(accounts, currentUserId, targetUserId);
      if guard.Fail? {
        return Err(guard.error);
      }
      var a := accounts[targetUserId];
      accounts := accounts[targetUserId := a.(row := a.row.(isDisabled := isDisabled))];
      r := Ok(isDisabled);
    }

    /** `deleteUser` (lines 142-158): after the same guards, only the target is removed. */
    method DeleteUser(currentUserId: UserId, targetUserId: UserId) returns (r: Outcome)
      modifies this
      ensures r == old(Protection(accounts, currentUserId, targetUserId))
      ensures r.Fail? ==> accounts == old(accounts)
      ensures r.Pass? ==> accounts == old(accounts) - {targetUserId}
    {
      r := Protection(accounts, currentUserId, targetUserId);
      if r.Pass? {
        accounts := accounts - {targetUserId};
      }
    }
  }
}
