/** The short-URL handlers: shorten, resolve-and-record, visibility toggle,
    delete, per-entry statistics and the caller's own listing. Each is a
    function of the store, the caller and the request values, answering
    with an `ApiError` or with a value and the new store. */
module UrlController {
  import opened Api
  import opened Text
  import opened Seqs
  import opened Paging
  import opened UrlPattern
  import opened Models

  // ---------------------------------------------------------------------
  // Access gates
  // ---------------------------------------------------------------------

  /** The caller created the entry. An anonymous caller owns nothing. */
  predicate IsOwner(caller: Option<Account>, u: Url) {
    caller.Some? && caller.value.id == u.createdBy
  }

  /** Gate of the resolve route: a private entry opens only for its owner
      or for a caller whose role, lower-cased, is `admin`. */
  predicate MayView(caller: Option<Account>, u: Url) {
    || u.visibility == Public
    || IsOwner(caller, u)
    || (caller.Some? && Lower(caller.value.role) == "admin")
  }

  /** Gate of the toggle and delete routes: the owner, or a caller whose
      role is exactly `admin`. */
  predicate MayModify(caller: Option<Account>, u: Url) {
    IsOwner(caller, u) || (caller.Some? && caller.value.role == "admin")
  }

  /** Whoever may change an entry may also open it. */
  lemma ModifyGateImpliesViewGate(caller: Option<Account>, u: Url)
    ensures MayModify(caller, u) ==> MayView(caller, u)
  {
    var a := Lower("admin");
    assert a[0] == 'a' && a[1] == 'd' && a[2] == 'm' && a[3] == 'i' && a[4] == 'n';
    assert a == "admin";
  }

  /** An account holding the schema's own admin value `ADMIN` passes the
      resolve gate of anyone's private entry, yet fails the toggle and
      delete gates of entries it does not own, because only the resolve
      gate lower-cases the role. */
  lemma SchemaAdminGateMismatch(admin: Account, u: Url)
    requires admin.role == "ADMIN" && admin.id != u.createdBy
    ensures MayView(Some(admin), u)
    ensures !MayModify(Some(admin), u)
  {
    var a := Lower(admin.role);
    assert a[0] == 'a' && a[1] == 'd' && a[2] == 'm' && a[3] == 'i' && a[4] == 'n';
    assert a == "admin";
  }

  /** The visitor recorded for a caller: its id, or nothing when anonymous. */
  function VisitorOf(caller: Option<Account>): Option<UserId> {
    if caller.Some? then Some(caller.value.id) else None
  }

  // ---------------------------------------------------------------------
  // createShortId
  // ---------------------------------------------------------------------

  const MissingUrlMessage := "Provide a url that you want to generate short id for"
  const InvalidUrlMessage := "Provide a valid Url"
  /** The store's own rejections, which reach the client as status 500. */
  const OwnerRequiredMessage := "URL validation failed: createdBy is required"

  /** The existing entry for the target (status 200), or the new one (201). */
  datatype Created = AlreadyExists(url: Url) | Generated(url: Url)

  /** Shortens `originalUrl` for `caller`. `newId` and `newShortId` are the
      values the database and the short-id generator would supply; a value
      already taken is rejected by the unique index. */
  function CreateShortId(st: State, caller: Option<Account>, originalUrl: string, newId: UrlId, newShortId: string)
    : (r: Result<Outcome<Created>>)
    ensures r.FailsWith(400) <==> !RegexAccepts(originalUrl)
    ensures r.Err? ==> r.error.code == 400 || r.error.code == 500
    ensures r.Ok? && r.value.out.AlreadyExists? ==>
      && r.value.state == st
      && r.value.out.url in st.urls
      && r.value.out.url.redirectUrl == originalUrl
    ensures r.Ok? && r.value.out.Generated? ==>
      var u := r.value.out.url;
      && r.value.state == st.(urls := st.urls + [u])
      && u.id == newId && u.shortId == newShortId && u.redirectUrl == originalUrl
      && u.visitHistory == [] && u.visibility == DefaultVisibility
      && caller.Some? && u.createdBy == caller.value.id
      && forall v | v in st.urls :: v.redirectUrl != originalUrl && v.id != newId && v.shortId != newShortId
    ensures RegexAccepts(originalUrl) && (exists v | v in st.urls :: v.redirectUrl == originalUrl) ==>
      r.Ok? && r.value.out.AlreadyExists?
    ensures (&& RegexAccepts(originalUrl) && caller.Some? && newShortId != ""
             && forall v | v in st.urls :: v.redirectUrl != originalUrl && v.id != newId && v.shortId != newShortId)
      ==> r.Ok? && r.value.out.Generated?
  {
    IsValidUrlCorrect(originalUrl);
    if originalUrl == "" then Err(ApiError(400, MissingUrlMessage))
    else if !IsValidUrl(originalUrl) then Err(ApiError(400, InvalidUrlMessage))
    else
      var found := IndexOfTarget(st.urls, originalUrl);
      if found.Some? then Ok(Outcome(AlreadyExists(st.urls[found.value]), st))
      else if caller.None? then Err(ApiError(500, OwnerRequiredMessage))
      else if newShortId == "" || exists v | v in st.urls :: v.id == newId || v.shortId == newShortId then
        Err(ApiError(500, DuplicateKeyMessage))
      else
        var u := Url(newId, newShortId, originalUrl, [], caller.value.id, DefaultVisibility);
        Ok(Outcome(Generated(u), st.(urls := st.urls + [u])))
  }

  /** Shortening the same URL again, by anyone, returns the entry the first
      call returned and leaves the store as the first call left it. */
  lemma CreateIsIdempotent(st: State, caller: Option<Account>, url: string, id: UrlId, sid: string,
                           caller2: Option<Account>, id2: UrlId, sid2: string)
    requires CreateShortId(st, caller, url, id, sid).Ok?
    ensures var first := CreateShortId(st, caller, url, id, sid).value;
      CreateShortId(first.state, caller2, url, id2, sid2) == Ok(Outcome(AlreadyExists(first.out.url), first.state))
  {
    var first := CreateShortId(st, caller, url, id, sid).value;
    IsValidUrlCorrect(url);
    var s1 := first.state.urls;
    if first.out.Generated? {
      var k := |st.urls|;
      assert s1[k] == first.out.url;
      forall j | 0 <= j < k
        ensures s1[j].redirectUrl != url
      {
        assert s1[j] == st.urls[j];
        assert st.urls[j] in st.urls;
      }
      assert IndexOfTarget(s1, url) == Some(k);
    }
  }

  /** Shortening keeps the store invariants. */
  lemma CreatePreservesValid(st: State, caller: Option<Account>, url: string, id: UrlId, sid: string)
    requires Valid(st)
    requires CreateShortId(st, caller, url, id, sid).Ok?
    ensures Valid(CreateShortId(st, caller, url, id, sid).value.state)
  {
    var r := CreateShortId(st, caller, url, id, sid).value;
    if r.out.Generated? {
      var u := r.out.url;
      var s := st.urls + [u];
      IsValidUrlCorrect(url);
      forall i, j | 0 <= i < j < |s|
        ensures IdOf(s[i]) != IdOf(s[j]) && ShortIdOf(s[i]) != ShortIdOf(s[j]) && TargetOf(s[i]) != TargetOf(s[j])
      {
        assert s[i] == st.urls[i];
        if j < |st.urls| {
          assert s[j] == st.urls[j];
        } else {
          assert st.urls[i] in st.urls;
        }
      }
    }
  }

  // ---------------------------------------------------------------------
  // redirectUrl
  // ---------------------------------------------------------------------

  const MissingShortIdMessage := "Enter valid short Id"
  const ShortIdNotFoundMessage := "Short Id for this url not found"
  const PrivateUrlMessage := "This URL is private, and you are not authorized to view it"

  /** Resolves `shortId` for `caller` at time `now`: records one visit on
      the entry and answers with the address to redirect to. */
  function RedirectUrl(st: State, caller: Option<Account>, shortId: string, now: int): (r: Result<Outcome<string>>)
    ensures shortId == "" ==> r.FailsWith(400)
    ensures shortId != "" ==> (r.FailsWith(404) <==> forall u | u in st.urls :: u.shortId != shortId)
    ensures r.FailsWith(403) <==>
      && shortId != ""
      && IndexOfShortId(st.urls, shortId).Some?
      && !MayView(caller, st.urls[IndexOfShortId(st.urls, shortId).value])
    ensures r.Err? ==> r.error.code in {400, 403, 404}
    ensures r.Ok? <==>
      && shortId != ""
      && IndexOfShortId(st.urls, shortId).Some?
      && MayView(caller, st.urls[IndexOfShortId(st.urls, shortId).value])
    ensures (&& shortId != "" && IndexOfShortId(st.urls, shortId).Some?
             && st.urls[IndexOfShortId(st.urls, shortId).value].visibility == Public)
      ==> r.Ok?
    ensures r.Ok? ==> IndexOfShortId(st.urls, shortId).Some? && |r.value.state.urls| == |st.urls|
    ensures r.Ok? ==>
      var i := IndexOfShortId(st.urls, shortId).value;
      var before := st.urls[i];
      var after := r.value.state.urls[i];
      && r.value.out == before.redirectUrl
      && (forall j | 0 <= j < |st.urls| && j != i :: r.value.state.urls[j] == st.urls[j])
      && after.visitHistory == before.visitHistory + [Visit(now, VisitorOf(caller))]
      && after.(visitHistory := before.visitHistory) == before
      && r.value.state.users == st.users
  {
    if shortId == "" then Err(ApiError(400, MissingShortIdMessage))
    else
      var found := IndexOfShortId(st.urls, shortId);
      if found.None? then Err(ApiError(404, ShortIdNotFoundMessage))
      else
        var u := st.urls[found.value];
        if !MayView(caller, u) then Err(ApiError(403, PrivateUrlMessage))
        else
          var visited := u.(visitHistory := u.visitHistory + [Visit(now, VisitorOf(caller))]);
          Ok(Outcome(u.redirectUrl, st.(urls := st.urls[found.value := visited])))
  }

  /** The resolve route has no session middleware, so its caller is always
      anonymous: a private entry there always answers 403. */
  lemma AnonymousCannotOpenPrivate(st: State, shortId: string, now: int)
    requires shortId != "" && IndexOfShortId(st.urls, shortId).Some?
    requires st.urls[IndexOfShortId(st.urls, shortId).value].visibility == Private
    ensures RedirectUrl(st, None, shortId, now).FailsWith(403)
  {
  }

  /** Resolving keeps the store invariants. */
  lemma RedirectPreservesValid(st: State, caller: Option<Account>, shortId: string, now: int)
    requires Valid(st)
    requires RedirectUrl(st, caller, shortId, now).Ok?
    ensures Valid(RedirectUrl(st, caller, shortId, now).value.state)
  {
    var i := IndexOfShortId(st.urls, shortId).value;
    var u := st.urls[i];
    ReplaceKeepsValidUrls(st.urls, i, u.(visitHistory := u.visitHistory + [Visit(now, VisitorOf(caller))]));
  }

  // ---------------------------------------------------------------------
  // toggleVisibilityStatus and deleteUrlById
  // ---------------------------------------------------------------------

  const InvalidObjectIdMessage := "Enter a valid object id"
  const InvalidUrlIdMessage := "Invalid URL Id provided"
  const UrlNotFoundMessage := "URL not found"
  const NotAuthorisedMessage := "You are not authorised for this action"

  /** Flips the visibility of entry `urlId`. `validId` stands for the
      object-id syntax check. Answers with the new visibility. */
  function ToggleVisibility(st: State, caller: Option<Account>, validId: string -> bool, urlId: string)
    : (r: Result<Outcome<Visibility>>)
    ensures !validId(urlId) ==> r.FailsWith(400)
    ensures validId(urlId) ==> (r.FailsWith(404) <==> forall u | u in st.urls :: u.id != urlId)
    ensures r.FailsWith(401) <==>
      && validId(urlId)
      && IndexOfId(st.urls, urlId).Some?
      && !MayModify(caller, st.urls[IndexOfId(st.urls, urlId).value])
    ensures r.Err? ==> r.error.code in {400, 401, 404}
    ensures r.Ok? <==>
      && validId(urlId)
      && IndexOfId(st.urls, urlId).Some?
      && MayModify(caller, st.urls[IndexOfId(st.urls, urlId).value])
    ensures r.Ok? ==> IndexOfId(st.urls, urlId).Some? && |r.value.state.urls| == |st.urls|
    ensures r.Ok? ==>
      var i := IndexOfId(st.urls, urlId).value;
      var before := st.urls[i];
      var after := r.value.state.urls[i];
      && MayModify(caller, before)
      && (forall j | 0 <= j < |st.urls| && j != i :: r.value.state.urls[j] == st.urls[j])
      && after.visibility != before.visibility
      && after.(visibility := before.visibility) == before
      && r.value.out == after.visibility
      && r.value.state.users == st.users
  {
    if !validId(urlId) then Err(ApiError(400, InvalidObjectIdMessage))
    else
      var found := IndexOfId(st.urls, urlId);
      if found.None? then Err(ApiError(404, UrlNotFoundMessage))
      else
        var u := st.urls[found.value];
        if !MayModify(caller, u) then Err(ApiError(401, NotAuthorisedMessage))
        else
          var v := Flip(u.visibility);
          Ok(Outcome(v, st.(urls := st.urls[found.value := u.(visibility := v)])))
  }

  /** Toggling twice, by the same caller, restores the store. */
  lemma ToggleTwiceRestores(st: State, caller: Option<Account>, validId: string -> bool, urlId: string)
    requires ToggleVisibility(st, caller, validId, urlId).Ok?
    ensures var once := ToggleVisibility(st, caller, validId, urlId).value.state;
      ToggleVisibility(once, caller, validId, urlId).Ok? &&
      ToggleVisibility(once, caller, validId, urlId).value.state == st
  {
    var i := IndexOfId(st.urls, urlId).value;
    var once := ToggleVisibility(st, caller, validId, urlId).value.state;
    forall j | 0 <= j < i
      ensures once.urls[j].id != urlId
    {
      assert once.urls[j] == st.urls[j];
    }
    assert IndexOfId(once.urls, urlId) == Some(i);
    assert once.urls[i := st.urls[i]] == st.urls;
  }

  /** Toggling keeps the store invariants. */
  lemma TogglePreservesValid(st: State, caller: Option<Account>, validId: string -> bool, urlId: string)
    requires Valid(st)
    requires ToggleVisibility(st, caller, validId, urlId).Ok?
    ensures Valid(ToggleVisibility(st, caller, validId, urlId).value.state)
  {
    var i := IndexOfId(st.urls, urlId).value;
    var u := st.urls[i];
    ReplaceKeepsValidUrls(st.urls, i, u.(visibility := Flip(u.visibility)));
  }

  /** Deletes entry `urlId`; the gate is the toggle gate. */
  function DeleteUrlById(st: State, caller: Option<Account>, validId: string -> bool, urlId: string)
    : (r: Result<Outcome<()>>)
    ensures !validId(urlId) ==> r.FailsWith(400)
    ensures validId(urlId) ==> (r.FailsWith(404) <==> forall u | u in st.urls :: u.id != urlId)
    ensures r.FailsWith(401) <==>
      && validId(urlId)
      && IndexOfId(st.urls, urlId).Some?
      && !MayModify(caller, st.urls[IndexOfId(st.urls, urlId).value])
    ensures r.Err? ==> r.error.code in {400, 401, 404}
    ensures r.Ok? <==>
      && validId(urlId)
      && IndexOfId(st.urls, urlId).Some?
      && MayModify(caller, st.urls[IndexOfId(st.urls, urlId).value])
    ensures r.Ok? ==>
      && (forall u :: u in r.value.state.urls <==> u in st.urls && u.id != urlId)
      && r.value.state.urls == Filter(st.urls, LacksId(urlId))
      && r.value.state.users == st.users
  {
    if !validId(urlId) then Err(ApiError(400, InvalidUrlIdMessage))
    else
      var found := IndexOfId(st.urls, urlId);
      if found.None? then Err(ApiError(404, UrlNotFoundMessage))
      else if !MayModify(caller, st.urls[found.value]) then Err(ApiError(401, NotAuthorisedMessage))
      else Ok(Outcome((), st.(urls := Filter(st.urls, LacksId(urlId)))))
  }

  /** With unique ids a delete removes exactly one entry and keeps the
      invariants. */
  lemma DeleteRemovesOne(st: State, caller: Option<Account>, validId: string -> bool, urlId: string)
    requires Valid(st)
    ensures var r := DeleteUrlById(st, caller, validId, urlId);
      r.Ok? ==>
        && |r.value.state.urls| == |st.urls| - 1
        && Valid(r.value.state)
        && var i := IndexOfId(st.urls, urlId).value;
           r.value.state.urls == st.urls[..i] + st.urls[i + 1..]
  {
    if DeleteUrlById(st, caller, validId, urlId).Err? { return; }
    var i := IndexOfId(st.urls, urlId).value;
    FilterKeepsValidUrls(st.urls, LacksId(urlId));
    RemoveUniqueId(st.urls, i);
    RemoveAtUniqueId(st.urls, i);
  }

  // ---------------------------------------------------------------------
  // getUrlById
  // ---------------------------------------------------------------------

  /** `user_details` of the statistics: name and email of the creator. */
  datatype OwnerDetails = OwnerDetails(fullName: string, email: string)

  datatype UrlStats = UrlStats(
    id: UrlId,
    shortId: string,
    redirectUrl: string,
    createdBy: UserId,
    totalClicks: nat,
    uniqueVisitors: nat,
    userDetails: seq<OwnerDetails>)

  /** Counts distinct visitors in one left-to-right pass: a visit adds one
      when it names a visitor no earlier visit named. */
  function DistinctVisitorCount(visits: seq<Visit>): (n: nat)
    ensures n == |VisitorSet(visits)|
    ensures n <= |visits|
    decreases |visits|
  {
    if |visits| == 0 then 0
    else
      var init := visits[..|visits| - 1];
      var last := visits[|visits| - 1];
      var isNew := last.visitor.Some? && !exists k | 0 <= k < |init| :: init[k].visitor == last.visitor;
      assert visits == init + [last];
      VisitorSetSnoc(init, last);
      DistinctVisitorCount(init) + (if isNew then 1 else 0)
  }

  lemma VisitorSetSnoc(init: seq<Visit>, last: Visit)
    ensures last.visitor.None? ==> VisitorSet(init + [last]) == VisitorSet(init)
    ensures last.visitor.Some? ==> VisitorSet(init + [last]) == VisitorSet(init) + {last.visitor.value}
    ensures last.visitor.Some? ==>
      (last.visitor.value in VisitorSet(init) <==> exists k | 0 <= k < |init| :: init[k].visitor == last.visitor)
  {
    var s := init + [last];
    assert forall v | v in s :: v in init || v == last;
    assert forall v | v in init :: v in s;
    if last.visitor.Some? && last.visitor.value in VisitorSet(init) {
      var v :| v in init && v.visitor.Some? && v.visitor.value == last.visitor.value;
      var k :| 0 <= k < |init| && init[k] == v;
    }
  }

  /** Statistics of entry `urlId`. No owner or visibility check applies. */
  function GetUrlById(st: State, validId: string -> bool, urlId: string): (r: Result<UrlStats>)
    ensures !validId(urlId) ==> r.FailsWith(400)
    ensures validId(urlId) ==> (r.FailsWith(404) <==> forall u | u in st.urls :: u.id != urlId)
    ensures r.Err? ==> r.error.code in {400, 404}
    ensures r.Ok? <==> validId(urlId) && exists u | u in st.urls :: u.id == urlId
    ensures r.Ok? ==>
      && IndexOfId(st.urls, urlId).Some?
      && var u := st.urls[IndexOfId(st.urls, urlId).value];
      && r.value.id == urlId
      && r.value.shortId == u.shortId && r.value.redirectUrl == u.redirectUrl && r.value.createdBy == u.createdBy
      && r.value.totalClicks == |u.visitHistory|
      && r.value.uniqueVisitors == |VisitorSet(u.visitHistory)|
      && r.value.uniqueVisitors <= r.value.totalClicks
      && (r.value.userDetails == [] <==> u.createdBy !in st.users)
      && (u.createdBy in st.users ==>
            r.value.userDetails == [OwnerDetails(st.users[u.createdBy].fullName, st.users[u.createdBy].email)])
  {
    if !validId(urlId) then Err(ApiError(400, InvalidUrlIdMessage))
    else
      var found := IndexOfId(st.urls, urlId);
      if found.None? then Err(ApiError(404, UrlNotFoundMessage))
      else
        var u := st.urls[found.value];
        var details :=
          if u.createdBy in st.users
          then [OwnerDetails(st.users[u.createdBy].fullName, st.users[u.createdBy].email)]
          else [];
        Ok(UrlStats(u.id, u.shortId, u.redirectUrl, u.createdBy,
                    |u.visitHistory|, DistinctVisitorCount(u.visitHistory), details))
  }

  /** A successful resolve adds one click to the entry's statistics, and
      one unique visitor exactly when the caller is signed in and had not
      visited before. */
  lemma RedirectCountsInStats(st: State, caller: Option<Account>, shortId: string, now: int, validId: string -> bool)
    requires Valid(st)
    requires RedirectUrl(st, caller, shortId, now).Ok?
    ensures var u := st.urls[IndexOfShortId(st.urls, shortId).value];
      var after := RedirectUrl(st, caller, shortId, now).value.state;
      validId(u.id) ==>
        && GetUrlById(st, validId, u.id).Ok?
        && GetUrlById(after, validId, u.id).Ok?
        && GetUrlById(after, validId, u.id).value.totalClicks == GetUrlById(st, validId, u.id).value.totalClicks + 1
        && GetUrlById(after, validId, u.id).value.uniqueVisitors ==
           GetUrlById(st, validId, u.id).value.uniqueVisitors +
           (if caller.Some? && caller.value.id !in VisitorSet(u.visitHistory) then 1 else 0)
  {
    var i := IndexOfShortId(st.urls, shortId).value;
    var u := st.urls[i];
    var after := RedirectUrl(st, caller, shortId, now).value.state;
    RedirectPreservesValid(st, caller, shortId, now);
    IndexOfUniqueId(st.urls, i);
    IndexOfUniqueId(after.urls, i);
    VisitorSetSnoc(u.visitHistory, Visit(now, VisitorOf(caller)));
  }

  // ---------------------------------------------------------------------
  // getAllUrlsOfUser
  // ---------------------------------------------------------------------

  const FetchFailedMessage := "Something went wrong while fetching the URLS"

  datatype OwnPagination = OwnPagination(totalUrls: nat, totalPages: nat, currentPage: int, limit: int)

  /** The response body as sent: the number of the caller's entries in
      place of the fetched page, and the pagination. */
  datatype OwnListing = OwnListing(urls: nat, pagination: OwnPagination)

  /** One row of the fetched page: the projected fields and the click total. */
  datatype OwnRow = OwnRow(
    id: UrlId,
    shortId: string,
    redirectUrl: string,
    visitHistory: seq<Visit>,
    totalClicks: nat,
    visibility: Visibility)

  /** The response body with the fetched rows in it. */
  datatype OwnPage = OwnPage(urls: seq<OwnRow>, pagination: OwnPagination)

  function OwnRowOf(u: Url): OwnRow {
    OwnRow(u.id, u.shortId, u.redirectUrl, u.visitHistory, |u.visitHistory|, u.visibility)
  }

  /** The caller's entries in store order; none for an anonymous caller. */
  function OwnedBy(urls: seq<Url>, caller: Option<Account>): seq<Url> {
    Filter(urls, OwnerIs(caller))
  }

  function OwnerIs(caller: Option<Account>): Url -> bool {
    (u: Url) => IsOwner(caller, u)
  }

  /** Row `k` describes owned entry `start + k`. */
  predicate OwnRowsDescribe(rows: seq<OwnRow>, owned: seq<Url>, start: int) {
    forall k | 0 <= k < |rows| ::
      && 0 <= start + k < |owned|
      && rows[k] == OwnRowOf(owned[start + k])
      && rows[k].totalClicks == |owned[start + k].visitHistory|
  }

  /** The rows of page `p` of `l` of the caller's entries. */
  function OwnRowsOfPage(owned: seq<Url>, p: int, l: int): (rows: seq<OwnRow>)
    requires p >= 1 && l >= 1
    ensures |rows| <= l
    ensures |rows| == PageLength(|owned|, p, l)
    ensures |rows| == 0 <==> p > PageCount(|owned|, l)
    ensures OwnRowsDescribe(rows, owned, (p - 1) * l)
  {
    var all := MapSeq(owned, OwnRowOf);
    PageNonEmptyIff(all, p, l);
    PageElements(all, p, l);
    Page(all, p, l)
  }

  /** The caller's entries, page `page` of `limit`, both clamped to at least
      1, with the fetched rows in the answer. An empty page is an error. */
  function ListOwnUrls(st: State, caller: Option<Account>, page: int, limit: int): (r: Result<OwnPage>)
    ensures var owned := OwnedBy(st.urls, caller);
      var p, l := AtLeastOne(page), AtLeastOne(limit);
      && (r.Err? <==> p > PageCount(|owned|, l))
      && (r.Err? ==> r.error.code == 500)
      && (r.Ok? ==>
            && 0 < |r.value.urls| <= l
            && |r.value.urls| == PageLength(|owned|, p, l)
            && OwnRowsDescribe(r.value.urls, owned, (p - 1) * l)
            && r.value.pagination == OwnPagination(|owned|, PageCount(|owned|, l), p, l)
            && 1 <= p <= r.value.pagination.totalPages)
  {
    var p := AtLeastOne(page);
    var l := AtLeastOne(limit);
    var owned := OwnedBy(st.urls, caller);
    var rows := OwnRowsOfPage(owned, p, l);
    if |rows| == 0 then Err(ApiError(500, FetchFailedMessage))
    else Ok(OwnPage(rows, OwnPagination(|owned|, PageCount(|owned|, l), p, l)))
  }

  /** The handler as written: it fetches the page, answers 500 when the page
      is empty, and otherwise sends the entry count where the rows belong. */
  function GetAllUrlsOfUser(st: State, caller: Option<Account>, page: int, limit: int): (r: Result<OwnListing>)
    ensures var owned := OwnedBy(st.urls, caller);
      var p, l := AtLeastOne(page), AtLeastOne(limit);
      && (r.Err? <==> p > PageCount(|owned|, l))
      && (r.Err? ==> r.error.code == 500)
      && (r.Ok? ==>
            && r.value.urls == |owned|
            && r.value.pagination == OwnPagination(|owned|, PageCount(|owned|, l), p, l)
            && 1 <= p <= r.value.pagination.totalPages)
  {
    match ListOwnUrls(st, caller, page, limit)
    case Err(e) => Err(e)
    case Ok(listing) => Ok(OwnListing(listing.pagination.totalUrls, listing.pagination))
  }

  /** The answer as written depends on the caller's entries only through
      their number: two stores in which the caller owns the same number of
      entries, whatever those entries are, give the same answer. */
  lemma OwnListingIgnoresEntries(st1: State, st2: State, caller: Option<Account>, page: int, limit: int)
    requires |OwnedBy(st1.urls, caller)| == |OwnedBy(st2.urls, caller)|
    ensures GetAllUrlsOfUser(st1, caller, page, limit) == GetAllUrlsOfUser(st2, caller, page, limit)
  {
  }

  /** A concrete instance: the caller owns one entry in each store, the
      entries differ, the listed rows differ, and the answers as written
      are equal. */
  lemma OwnListingDropsRows()
    ensures
      var owner := Account("u1", "A", "a@x.io", "pw", "USER", None, []);
      var e1 := Url("id1", "s1", "http://a.io", [], "u1", Public);
      var e2 := Url("id2", "s2", "http://b.io", [], "u1", Public);
      var st1 := State([e1], map[]);
      var st2 := State([e2], map[]);
      && ListOwnUrls(st1, Some(owner), 1, 10) != ListOwnUrls(st2, Some(owner), 1, 10)
      && GetAllUrlsOfUser(st1, Some(owner), 1, 10) == GetAllUrlsOfUser(st2, Some(owner), 1, 10)
  {
    var owner := Account("u1", "A", "a@x.io", "pw", "USER", None, []);
    var e1 := Url("id1", "s1", "http://a.io", [], "u1", Public);
    var e2 := Url("id2", "s2", "http://b.io", [], "u1", Public);
    assert OwnedBy([e1], Some(owner)) == [e1] by {
      assert OwnerIs(Some(owner))(e1);
    }
    assert OwnedBy([e2], Some(owner)) == [e2] by {
      assert OwnerIs(Some(owner))(e2);
    }
    var r1 := ListOwnUrls(State([e1], map[]), Some(owner), 1, 10);
    assert r1.Ok? && r1.value.urls[0] == OwnRowOf(e1);
    var r2 := ListOwnUrls(State([e2], map[]), Some(owner), 1, 10);
    assert r2.Ok? && r2.value.urls[0] == OwnRowOf(e2);
  }

  /** Every page up to the page count succeeds, and its rows are exactly
      that page of the caller's entries' rows. */
  lemma ListOwnUrlsIsPage(st: State, caller: Option<Account>, page: int, limit: int)
    requires page >= 1 && limit >= 1
    requires page <= PageCount(|OwnedBy(st.urls, caller)|, limit)
    ensures var r := ListOwnUrls(st, caller, page, limit);
      r.Ok? && r.value.urls == Page(MapSeq(OwnedBy(st.urls, caller), OwnRowOf), page, limit)
  {
  }

  /** Two different pages answered by the corrected listing share no row. */
  lemma ListOwnUrlsPagesDisjoint(st: State, caller: Option<Account>, limit: int, p: int, q: int)
    requires Valid(st)
    requires limit >= 1 && 1 <= p < q
    ensures var rp := ListOwnUrls(st, caller, p, limit);
      var rq := ListOwnUrls(st, caller, q, limit);
      rp.Ok? && rq.Ok? ==> forall x | x in rp.value.urls :: x !in rq.value.urls
  {
    var owned := OwnedBy(st.urls, caller);
    var rows := MapSeq(owned, OwnRowOf);
    FilterKeepsUniqueBy(st.urls, OwnerIs(caller), IdOf);
    assert Distinct(rows) by {
      forall i, j | 0 <= i < j < |rows|
        ensures rows[i] != rows[j]
      {
        assert IdOf(owned[i]) != IdOf(owned[j]);
      }
    }
    PagesDisjoint(rows, limit, p, q);
    var rp := ListOwnUrls(st, caller, p, limit);
    var rq := ListOwnUrls(st, caller, q, limit);
    if rp.Ok? && rq.Ok? {
      ListOwnUrlsIsPage(st, caller, p, limit);
      ListOwnUrlsIsPage(st, caller, q, limit);
    }
  }

  /** The caller's pages are disjoint and, read in order, give every one of
      the caller's entries exactly once. */
  lemma OwnPagesPartition(st: State, caller: Option<Account>, limit: int, p: int, q: int)
    requires Valid(st)
    requires limit >= 1 && 1 <= p < q
    ensures var owned := OwnedBy(st.urls, caller);
      && PagesUpTo(owned, limit, PageCount(|owned|, limit)) == owned
      && forall x | x in Page(owned, p, limit) :: x !in Page(owned, q, limit)
  {
    var owned := OwnedBy(st.urls, caller);
    PagesCover(owned, limit);
    FilterKeepsUniqueBy(st.urls, OwnerIs(caller), IdOf);
    assert Distinct(owned) by {
      forall i, j | 0 <= i < j < |owned|
        ensures owned[i] != owned[j]
      {
        assert IdOf(owned[i]) != IdOf(owned[j]);
      }
    }
    PagesDisjoint(owned, limit, p, q);
  }
}
