/** The moderation handlers: role and status changes (each logged once on
    the target account), activity-log reading, batch deletion of entries,
    and the filtered, paginated statistics of all entries. */
module AdminController {
  import opened Api
  import opened Text
  import opened Seqs
  import opened Paging
  import opened Models

  const InvalidUserIdMessage := "Invalid User Id"
  const UserNotFoundMessage := "User with the given ID not found"

  // ---------------------------------------------------------------------
  // updateUserRole
  // ---------------------------------------------------------------------

  const InvalidRoleMessage := "Invalid input: user role"
  const SameRoleMessage := "User already has that role"

  /** The values this handler accepts, which are lower case, unlike the
      schema's `USER` and `ADMIN`. */
  const AssignableRoles: set<string> := {"user", "admin"}

  /** The line appended to the target's activity log. */
  function RoleLogLine(role: string): string {
    "Your role has been updated to: " + role + " by an admin."
  }

  /** Sets the role of account `userId` to `role`. */
  function UpdateUserRole(st: State, validId: string -> bool, userId: string, role: string)
    : (r: Result<Outcome<Account>>)
    ensures role !in AssignableRoles ==> r == Err(ApiError(400, InvalidRoleMessage))
    ensures role in AssignableRoles && !validId(userId) ==> r == Err(ApiError(400, InvalidUserIdMessage))
    ensures role in AssignableRoles && validId(userId) ==> (r.FailsWith(404) <==> userId !in st.users)
    ensures (role in AssignableRoles && validId(userId) && userId in st.users && st.users[userId].role == role)
      ==> r == Err(ApiError(400, SameRoleMessage))
    ensures r.Err? ==> r.error.code in {400, 404}
    ensures r.Ok? <==>
      role in AssignableRoles && validId(userId) && userId in st.users && st.users[userId].role != role
    ensures r.Ok? ==> userId in st.users
    ensures r.Ok? ==>
      var before := st.users[userId];
      var after := r.value.out;
      && before.role != role
      && after.role == role
      && after.role !in SchemaRoles
      && after.logs == before.logs + [RoleLogLine(role)]
      && after.(role := before.role, logs := before.logs) == before
      && r.value.state == st.(users := st.users[userId := after])
  {
    if role !in AssignableRoles then Err(ApiError(400, InvalidRoleMessage))
    else if !validId(userId) then Err(ApiError(400, InvalidUserIdMessage))
    else if userId !in st.users then Err(ApiError(404, UserNotFoundMessage))
    else
      var user := st.users[userId];
      if user.role == role then Err(ApiError(400, SameRoleMessage))
      else
        var updated := user.(role := role, logs := user.logs + [RoleLogLine(role)]);
        Ok(Outcome(updated, st.(users := st.users[userId := updated])))
  }

  /** Repeating a successful role change is the no-op error. */
  lemma UpdateRoleTwiceIsNoOp(st: State, validId: string -> bool, userId: string, role: string)
    requires UpdateUserRole(st, validId, userId, role).Ok?
    ensures var once := UpdateUserRole(st, validId, userId, role).value.state;
      UpdateUserRole(once, validId, userId, role) == Err(ApiError(400, SameRoleMessage))
  {
  }

  /** A role change keeps the store invariants. */
  lemma UpdateRolePreservesValid(st: State, validId: string -> bool, userId: string, role: string)
    requires Valid(st)
    requires UpdateUserRole(st, validId, userId, role).Ok?
    ensures Valid(UpdateUserRole(st, validId, userId, role).value.state)
  {
  }

  // ---------------------------------------------------------------------
  // toggleUserStatus
  // ---------------------------------------------------------------------

  const InvalidStatusMessage := "Invalid input: user status type"
  const SameStatusMessage := "User already has this status"

  /** The accepted status values; note `block`, not `blocked`. */
  const StatusValues: set<string> := {"normal", "block", "suspended"}

  function StatusLogLine(status: string): string {
    "Your account status has been updated to: " + status + " by an admin."
  }

  /** Sets the status of account `userId`. */
  function ToggleUserStatus(st: State, validId: string -> bool, userId: string, status: string)
    : (r: Result<Outcome<Account>>)
    ensures status !in StatusValues ==> r == Err(ApiError(400, InvalidStatusMessage))
    ensures status in StatusValues && !validId(userId) ==> r == Err(ApiError(400, InvalidUserIdMessage))
    ensures status in StatusValues && validId(userId) ==> (r.FailsWith(404) <==> userId !in st.users)
    ensures (status in StatusValues && validId(userId) && userId in st.users && st.users[userId].status == Some(status))
      ==> r == Err(ApiError(400, SameStatusMessage))
    ensures r.Err? ==> r.error.code in {400, 404}
    ensures r.Ok? <==>
      status in StatusValues && validId(userId) && userId in st.users && st.users[userId].status != Some(status)
    ensures r.Ok? ==> userId in st.users
    ensures r.Ok? ==>
      var before := st.users[userId];
      var after := r.value.out;
      && before.status != Some(status)
      && after.status == Some(status)
      && after.logs == before.logs + [StatusLogLine(status)]
      && after.(status := before.status, logs := before.logs) == before
      && r.value.state == st.(users := st.users[userId := after])
  {
    if status !in StatusValues then Err(ApiError(400, InvalidStatusMessage))
    else if !validId(userId) then Err(ApiError(400, InvalidUserIdMessage))
    else if userId !in st.users then Err(ApiError(404, UserNotFoundMessage))
    else
      var user := st.users[userId];
      if user.status == Some(status) then Err(ApiError(400, SameStatusMessage))
      else
        var updated := user.(status := Some(status), logs := user.logs + [StatusLogLine(status)]);
        Ok(Outcome(updated, st.(users := st.users[userId := updated])))
  }

  /** Repeating a successful status change is the no-op error. */
  lemma ToggleStatusTwiceIsNoOp(st: State, validId: string -> bool, userId: string, status: string)
    requires ToggleUserStatus(st, validId, userId, status).Ok?
    ensures var once := ToggleUserStatus(st, validId, userId, status).value.state;
      ToggleUserStatus(once, validId, userId, status) == Err(ApiError(400, SameStatusMessage))
  {
  }

  /** A status change keeps the store invariants. */
  lemma ToggleStatusPreservesValid(st: State, validId: string -> bool, userId: string, status: string)
    requires Valid(st)
    requires ToggleUserStatus(st, validId, userId, status).Ok?
    ensures Valid(ToggleUserStatus(st, validId, userId, status).value.state)
  {
  }

  // ---------------------------------------------------------------------
  // viewUserActivityLogs
  // ---------------------------------------------------------------------

  /** `logs.slice(skip, skip + limit)` with `skip = (page - 1) * limit`;
      neither number is clamped. */
  function LogWindow(logs: seq<string>, page: int, limit: int): seq<string> {
    var skip := (page - 1) * limit;
    JsSlice(logs, skip, skip + limit)
  }

  /** Reads page `page` of `limit` entries of the activity log of `userId`. */
  function ViewUserActivityLogs(st: State, validId: string -> bool, userId: string, page: int, limit: int)
    : (r: Result<seq<string>>)
    ensures !validId(userId) ==> r == Err(ApiError(400, InvalidUserIdMessage))
    ensures validId(userId) ==> (r.FailsWith(404) <==> userId !in st.users)
    ensures r.Err? ==> r.error.code in {400, 404}
    ensures r.Ok? <==> validId(userId) && userId in st.users
    ensures r.Ok? ==>
      var logs := st.users[userId].logs;
      var k := SliceBound((page - 1) * limit, |logs|);
      && k + |r.value| <= |logs|
      && r.value == logs[k..k + |r.value|]
      && (limit >= 0 ==> |r.value| <= limit)
      && (page >= 1 && limit >= 1 ==> r.value == Page(logs, page, limit))
  {
    if !validId(userId) then Err(ApiError(400, InvalidUserIdMessage))
    else if userId !in st.users then Err(ApiError(404, UserNotFoundMessage))
    else
      var logs := st.users[userId].logs;
      assert limit >= 0 ==> |LogWindow(logs, page, limit)| <= limit by {
        JsSliceProperties(logs, (page - 1) * limit, (page - 1) * limit + limit);
      }
      if page >= 1 && limit >= 1 then
        MulMono(0, page - 1, limit);
        Ok(LogWindow(logs, page, limit))
      else Ok(LogWindow(logs, page, limit))
  }

  lemma LogWindowNegativeLimit(logs: seq<string>, page: int, limit: int)
    requires limit < 0
    ensures page == 1 ==> LogWindow(logs, page, limit) == logs[..Max(|logs| + limit, 0)]
    ensures page != 1 ==> LogWindow(logs, page, limit) == []
  {
    if page < 1 {
      MulMono(page - 1, -1, -limit);
      assert (page - 1) * limit == -((page - 1) * -limit);
    } else if page > 1 {
      MulMono(1, page - 1, -limit);
      assert (page - 1) * limit == -((page - 1) * -limit);
    }
  }

  lemma LogWindowNonPositivePage(logs: seq<string>, page: int, limit: int)
    requires page <= 0 && limit >= 1
    ensures page == 0 ==> LogWindow(logs, page, limit) == []
    ensures page < 0 ==>
      var from := Max(|logs| + (page - 1) * limit, 0);
      var to := Max(|logs| + page * limit, 0);
      LogWindow(logs, page, limit) == (if from < to then logs[from..to] else [])
  {
    MulMono(page - 1, -1, limit);
    assert (page - 1) * limit + limit == page * limit;
    if page < 0 {
      MulMono(page, -1, limit);
    }
  }

  /** Without clamping, a negative `limit` on page 1 returns the target's
      log minus its last `-limit` entries, and on any other page nothing. */
  lemma NegativeLimitQuirk(st: State, validId: string -> bool, userId: string, page: int, limit: int)
    requires validId(userId) && userId in st.users && limit < 0
    ensures var logs := st.users[userId].logs;
      ViewUserActivityLogs(st, validId, userId, page, limit)
        == Ok(if page == 1 then logs[..Max(|logs| + limit, 0)] else [])
  {
    LogWindowNegativeLimit(st.users[userId].logs, page, limit);
  }

  /** Without clamping, page 0 is empty and a negative page reads the
      window `[|logs| + (page - 1) * limit, |logs| + page * limit)` counted
      back from the end of the target's log. */
  lemma NonPositivePageQuirk(st: State, validId: string -> bool, userId: string, page: int, limit: int)
    requires validId(userId) && userId in st.users && page <= 0 && limit >= 1
    ensures var logs := st.users[userId].logs;
      var from := Max(|logs| + (page - 1) * limit, 0);
      var to := Max(|logs| + page * limit, 0);
      ViewUserActivityLogs(st, validId, userId, page, limit)
        == Ok(if page == 0 || to <= from then [] else logs[from..to])
  {
    LogWindowNonPositivePage(st.users[userId].logs, page, limit);
  }

  // ---------------------------------------------------------------------
  // urlBatchDelete
  // ---------------------------------------------------------------------

  const NoIdsMessage := "Provide an array of urls id to delete"
  const NothingDeletedMessage := "No Urls found to be deleted"

  function InvalidIdsMessage(bad: seq<string>): string {
    "Invalid URL IDs: " + Join(bad, ", ")
  }

  /** Entries whose id is not in the list survive `deleteMany`. */
  function NotListed(ids: seq<string>): Url -> bool {
    (u: Url) => u.id !in ids
  }

  function Listed(ids: seq<string>): Url -> bool {
    (u: Url) => u.id in ids
  }

  function Invalid(validId: string -> bool): string -> bool {
    (id: string) => !validId(id)
  }

  /** Deletes every entry whose id is listed. `urlIds` is `None` when the
      request body's field is not an array. Answers with `deletedCount`. */
  function UrlBatchDelete(st: State, validId: string -> bool, urlIds: Option<seq<string>>)
    : (r: Result<Outcome<nat>>)
    ensures urlIds.None? || urlIds == Some([]) ==> r == Err(ApiError(400, NoIdsMessage))
    ensures (urlIds.Some? && exists id | id in urlIds.value :: !validId(id)) ==> r.FailsWith(400)
    ensures r.FailsWith(404) <==>
      && urlIds.Some? && urlIds.value != []
      && (forall id | id in urlIds.value :: validId(id))
      && (forall u | u in st.urls :: u.id !in urlIds.value)
    ensures r.Err? ==> r.error.code in {400, 404}
    ensures r.Ok? <==>
      && urlIds.Some? && urlIds.value != []
      && (forall id | id in urlIds.value :: validId(id))
      && exists u | u in st.urls :: u.id in urlIds.value
    ensures r.Ok? ==> urlIds.Some?
    ensures r.Ok? ==> r.value.state.urls == Filter(st.urls, NotListed(urlIds.value))
    ensures r.Ok? ==>
      && (forall u :: u in r.value.state.urls <==> u in st.urls && u.id !in urlIds.value)
      && r.value.out == |st.urls| - |r.value.state.urls|
      && r.value.out > 0
      && r.value.state.users == st.users
  {
    if urlIds.None? || |urlIds.value| == 0 then Err(ApiError(400, NoIdsMessage))
    else
      var ids := urlIds.value;
      var bad := Filter(ids, Invalid(validId));
      if |bad| > 0 then Err(ApiError(400, InvalidIdsMessage(bad)))
      else
        var kept := Filter(st.urls, NotListed(ids));
        FilterKeepsAll(st.urls, NotListed(ids));
        var deleted: nat := |st.urls| - |kept|;
        if deleted == 0 then Err(ApiError(404, NothingDeletedMessage))
        else Ok(Outcome(deleted, st.(urls := kept)))
  }

  /** With unique entry ids, the listed entries number at most the
      distinct listed ids. */
  lemma ListedCountBound(urls: seq<Url>, ids: seq<string>)
    requires UniqueBy(urls, IdOf)
    ensures |Filter(urls, Listed(ids))| <= |set id | id in ids|
  {
    var hit := Filter(urls, Listed(ids));
    FilterKeepsUniqueBy(urls, Listed(ids), IdOf);
    UniqueKeysCount(hit, IdOf);
    assert KeySet(hit, IdOf) <= set id | id in ids by {
      forall x | x in KeySet(hit, IdOf)
        ensures x in ids
      {
        var u :| u in hit && IdOf(u) == x;
        assert Listed(ids)(u);
      }
    }
    SubsetCard(KeySet(hit, IdOf), set id | id in ids);
  }

  /** `deletedCount` counts the listed entries, and with unique entry ids it
      is at most the number of distinct listed ids. Invariants are kept. */
  lemma BatchDeleteCount(st: State, validId: string -> bool, urlIds: Option<seq<string>>)
    requires Valid(st)
    ensures var res := UrlBatchDelete(st, validId, urlIds);
      res.Ok? ==>
      var r := res.value;
      && r.out == |Filter(st.urls, Listed(urlIds.value))|
      && r.out <= |set id | id in urlIds.value|
      && Valid(r.state)
  {
    if UrlBatchDelete(st, validId, urlIds).Err? { return; }
    var ids := urlIds.value;
    var r := UrlBatchDelete(st, validId, urlIds).value;
    assert r.state.urls == Filter(st.urls, NotListed(ids));
    FilterSplit(st.urls, NotListed(ids), Listed(ids));
    FilterKeepsValidUrls(st.urls, NotListed(ids));
    ListedCountBound(st.urls, ids);
  }

  // ---------------------------------------------------------------------
  // getAllUrls
  // ---------------------------------------------------------------------

  const InvalidUserIdFormatMessage := "Invalid User Id Format"
  const InvalidVisibilityMessage := "Include visibility value"
  const NoMatchesMessage := "No Urls found for the specified criteria"

  /** One statistics row, grouped by entry id. */
  datatype AdminRow = AdminRow(
    id: UrlId,
    shortId: string,
    redirectUrl: string,
    createdBy: UserId,
    totalClicks: nat,
    visibility: Visibility)

  datatype AdminListing = AdminListing(
    urlStats: seq<AdminRow>,
    currentPage: int,
    totalPages: nat,
    totalRecords: nat)

  function RowOf(u: Url): AdminRow {
    AdminRow(u.id, u.shortId, u.redirectUrl, u.createdBy, |u.visitHistory|, u.visibility)
  }

  /** The match stage: an empty `userId` or `visibility` does not filter. */
  predicate MatchesQuery(u: Url, userId: string, visibility: string) {
    && (userId == "" || u.createdBy == userId)
    && (visibility == "" || VisibilityName(u.visibility) == visibility)
  }

  function QueryFilter(userId: string, visibility: string): Url -> bool {
    (u: Url) => MatchesQuery(u, userId, visibility)
  }

  /** The entries the match stage lets through, in store order. */
  function Matching(urls: seq<Url>, userId: string, visibility: string): seq<Url> {
    Filter(urls, QueryFilter(userId, visibility))
  }

  /** The query values are well formed. */
  predicate QueryOk(validId: string -> bool, userId: string, visibility: string) {
    (userId == "" || validId(userId)) && (visibility == "" || ParseVisibility(visibility).Some?)
  }

  /** Row `k` describes entry `start + k`, its click total being the
      length of that entry's visit history. */
  predicate Describes(rows: seq<AdminRow>, m: seq<Url>, start: int) {
    forall k | 0 <= k < |rows| ::
      && 0 <= start + k < |m|
      && rows[k] == RowOf(m[start + k])
      && rows[k].totalClicks == |m[start + k].visitHistory|
  }

  /** The rows of page `p` of `l`: row `k` describes matching entry
      `(p - 1) * l + k`, the page holds every matching entry of its range,
      and it is empty exactly past the last page. */
  function RowsOfPage(m: seq<Url>, p: int, l: int): (rows: seq<AdminRow>)
    requires p >= 1 && l >= 1
    ensures |rows| <= l
    ensures |rows| == PageLength(|m|, p, l)
    ensures |rows| == 0 <==> p > PageCount(|m|, l)
    ensures Describes(rows, m, (p - 1) * l)
  {
    var all := MapSeq(m, RowOf);
    PageNonEmptyIff(all, p, l);
    PageElements(all, p, l);
    Page(all, p, l)
  }

  /** Statistics of all entries matching the optional owner and visibility
      filters, page `page` of `limit` (both clamped to at least 1). */
  function GetAllUrls(st: State, validId: string -> bool, page: int, limit: int, userId: string, visibility: string)
    : (r: Result<AdminListing>)
    ensures userId != "" && !validId(userId) ==> r == Err(ApiError(400, InvalidUserIdFormatMessage))
    ensures (userId == "" || validId(userId)) && visibility != "" && visibility != "public" && visibility != "private"
      ==> r == Err(ApiError(400, InvalidVisibilityMessage))
    ensures r.Err? ==> r.error.code in {400, 404}
    ensures r.Ok? <==>
      && QueryOk(validId, userId, visibility)
      && AtLeastOne(page) <= PageCount(|Matching(st.urls, userId, visibility)|, AtLeastOne(limit))
    ensures QueryOk(validId, userId, visibility) ==>
      var m := Matching(st.urls, userId, visibility);
      var p, l := AtLeastOne(page), AtLeastOne(limit);
      && (r.FailsWith(404) <==> p > PageCount(|m|, l))
      && (r.Ok? ==>
            && |r.value.urlStats| <= l
            && |r.value.urlStats| == PageLength(|m|, p, l)
            && Describes(r.value.urlStats, m, (p - 1) * l)
            && r.value.currentPage == p
            && r.value.totalRecords == |m|
            && r.value.totalPages == PageCount(|m|, l))
  {
    var p := AtLeastOne(page);
    var l := AtLeastOne(limit);
    if userId != "" && !validId(userId) then Err(ApiError(400, InvalidUserIdFormatMessage))
    else if visibility != "" && ParseVisibility(visibility).None? then Err(ApiError(400, InvalidVisibilityMessage))
    else
      var m := Matching(st.urls, userId, visibility);
      var rows := RowsOfPage(m, p, l);
      if |rows| == 0 then Err(ApiError(404, NoMatchesMessage))
      else Ok(AdminListing(rows, p, PageCount(|m|, l), |m|))
  }

  /** Every page up to the page count succeeds, and its rows are exactly
      that page of the matching entries' rows. */
  lemma GetAllUrlsIsPage(st: State, validId: string -> bool, page: int, limit: int, userId: string, visibility: string)
    requires QueryOk(validId, userId, visibility) && page >= 1 && limit >= 1
    requires page <= PageCount(|Matching(st.urls, userId, visibility)|, limit)
    ensures var r := GetAllUrls(st, validId, page, limit, userId, visibility);
      && r.Ok?
      && r.value.urlStats == Page(MapSeq(Matching(st.urls, userId, visibility), RowOf), page, limit)
  {
  }

  /** Two different pages answered by the handler share no row. */
  lemma GetAllUrlsPagesDisjoint(st: State, validId: string -> bool, limit: int, userId: string, visibility: string,
                                p: int, q: int)
    requires Valid(st) && QueryOk(validId, userId, visibility)
    requires limit >= 1 && 1 <= p < q
    ensures var rp := GetAllUrls(st, validId, p, limit, userId, visibility);
      var rq := GetAllUrls(st, validId, q, limit, userId, visibility);
      rp.Ok? && rq.Ok? ==> forall x | x in rp.value.urlStats :: x !in rq.value.urlStats
  {
    var m := Matching(st.urls, userId, visibility);
    AdminPagesPartition(st, userId, visibility, limit, p, q);
    var rp := GetAllUrls(st, validId, p, limit, userId, visibility);
    var rq := GetAllUrls(st, validId, q, limit, userId, visibility);
    if rp.Ok? && rq.Ok? {
      GetAllUrlsIsPage(st, validId, p, limit, userId, visibility);
      GetAllUrlsIsPage(st, validId, q, limit, userId, visibility);
    }
  }

  /** The match stage keeps exactly the entries matching both filters, each
      once; reading all pages in order gives one row per matching entry,
      and with unique ids two pages share no row. */
  lemma AdminPagesPartition(st: State, userId: string, visibility: string, limit: int, p: int, q: int)
    requires Valid(st)
    requires limit >= 1 && 1 <= p < q
    ensures var m := Matching(st.urls, userId, visibility);
      && (forall u :: u in m <==> u in st.urls && MatchesQuery(u, userId, visibility))
      && (forall u | MatchesQuery(u, userId, visibility) :: multiset(m)[u] == multiset(st.urls)[u])
      && PagesUpTo(MapSeq(m, RowOf), limit, PageCount(|m|, limit)) == MapSeq(m, RowOf)
      && forall x | x in Page(MapSeq(m, RowOf), p, limit) :: x !in Page(MapSeq(m, RowOf), q, limit)
  {
    var m := Matching(st.urls, userId, visibility);
    var rows := MapSeq(m, RowOf);
    PagesCover(rows, limit);
    FilterKeepsUniqueBy(st.urls, QueryFilter(userId, visibility), IdOf);
    assert Distinct(rows) by {
      forall i, j | 0 <= i < j < |rows|
        ensures rows[i] != rows[j]
      {
        assert IdOf(m[i]) != IdOf(m[j]);
      }
    }
    PagesDisjoint(rows, limit, p, q);
  }
}
