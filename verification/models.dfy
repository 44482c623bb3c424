/** The two stored collections: short-URL entries with their embedded visit
    history, and user accounts with their activity log. The store is an
    insertion-ordered sequence of entries and a map of accounts by id. */
module Models {
  import opened Api
  import opened Seqs
  import UrlPattern

  /** A database object id, kept as its text. */
  type UserId = string
  type UrlId = string

  /** The schema's visibility enum; `Public` is its default. */
  datatype Visibility = Public | Private

  const DefaultVisibility: Visibility := Public

  function VisibilityName(v: Visibility): string {
    match v
    case Public => "public"
    case Private => "private"
  }

  /** Reads a visibility value; only the two enum strings are accepted. */
  function ParseVisibility(s: string): (r: Option<Visibility>)
    ensures r.Some? <==> s == "public" || s == "private"
    ensures r.Some? ==> VisibilityName(r.value) == s
  {
    if s == "public" then Some(Public)
    else if s == "private" then Some(Private)
    else None
  }

  /** The other visibility. */
  function Flip(v: Visibility): (w: Visibility)
    ensures w != v
  {
    if v == Public then Private else Public
  }

  /** One element of `visitHistory`; `visitor` is absent for anonymous visits. */
  datatype Visit = Visit(timestamp: int, visitor: Option<UserId>)

  /** A short-URL entry. `createdAt`/`updatedAt` are not modelled. */
  datatype Url = Url(
    id: UrlId,
    shortId: string,
    redirectUrl: string,
    visitHistory: seq<Visit>,
    createdBy: UserId,
    visibility: Visibility)

  /** The role a new account receives and the two values the schema allows. */
  const DefaultRole := "USER"
  const SchemaRoles: set<string> := {"USER", "ADMIN"}

  /** A user account. `status` is `userStatusType`, unset on a new account. */
  datatype Account = Account(
    id: UserId,
    fullName: string,
    email: string,
    password: string,
    role: string,
    status: Option<string>,
    logs: seq<string>)

  datatype State = State(urls: seq<Url>, users: map<UserId, Account>)

  /** A successful handler's answer and the store it leaves behind. */
  datatype Outcome<T> = Outcome(out: T, state: State)

  function IdOf(u: Url): UrlId { u.id }
  function ShortIdOf(u: Url): string { u.shortId }
  function TargetOf(u: Url): string { u.redirectUrl }

  /** The filters `{_id: id}` and its negation, as predicates on entries. */
  function HasId(id: UrlId): Url -> bool { (u: Url) => u.id == id }
  function LacksId(id: UrlId): Url -> bool { (u: Url) => u.id != id }

  /** Index of the entry with `_id == id` (`findById`). */
  function IndexOfId(urls: seq<Url>, id: UrlId): Option<nat> {
    FirstIndex(urls, (u: Url) => u.id == id)
  }

  /** Index of the first entry with the given `shortId` (`findOne`). */
  function IndexOfShortId(urls: seq<Url>, shortId: string): Option<nat> {
    FirstIndex(urls, (u: Url) => u.shortId == shortId)
  }

  /** Index of the first entry redirecting to `target` (`findOne`). */
  function IndexOfTarget(urls: seq<Url>, target: string): Option<nat> {
    FirstIndex(urls, (u: Url) => u.redirectUrl == target)
  }

  /** The distinct accounts that visited, anonymous visits contributing nothing. */
  function VisitorSet(visits: seq<Visit>): set<UserId> {
    set v | v in visits && v.visitor.Some? :: v.visitor.value
  }

  /** The invariants of the entry collection: `_id`, `shortId` and (through
      the shorten handler's lookup) `redirectUrl` are unique; every entry has
      a non-empty `shortId` and a target that passed the URL test. */
  ghost predicate ValidUrls(urls: seq<Url>) {
    && UniqueBy(urls, IdOf)
    && UniqueBy(urls, ShortIdOf)
    && UniqueBy(urls, TargetOf)
    && forall u | u in urls :: u.shortId != "" && UrlPattern.IsValidUrl(u.redirectUrl)
  }

  /** The store's answer when an insert reuses a unique key. */
  const DuplicateKeyMessage := "E11000 duplicate key error"

  /** The invariants of the account collection: each account is stored
      under its own id, required fields are non-empty, and (through the
      registration lookup) emails are unique. */
  ghost predicate ValidUsers(users: map<UserId, Account>) {
    && (forall k | k in users ::
          && users[k].id == k
          && users[k].fullName != ""
          && users[k].email != ""
          && users[k].password != ""
          && users[k].role != "")
    && (forall k1, k2 | k1 in users && k2 in users && k1 != k2 ::
          users[k1].email != users[k2].email)
  }

  ghost predicate Valid(st: State) {
    ValidUrls(st.urls) && ValidUsers(st.users)
  }

  /** With unique ids, the entry at position `i` is the one `findById` finds. */
  lemma IndexOfUniqueId(urls: seq<Url>, i: nat)
    requires i < |urls| && UniqueBy(urls, IdOf)
    ensures IndexOfId(urls, urls[i].id) == Some(i)
  {
    assert forall j | 0 <= j < |urls| && j != i :: IdOf(urls[j]) != IdOf(urls[i]);
  }

  /** With unique short ids, the entry at `i` is the one its short id finds. */
  lemma IndexOfUniqueShortId(urls: seq<Url>, i: nat)
    requires i < |urls| && UniqueBy(urls, ShortIdOf)
    ensures IndexOfShortId(urls, urls[i].shortId) == Some(i)
  {
    assert forall j | 0 <= j < |urls| && j != i :: ShortIdOf(urls[j]) != ShortIdOf(urls[i]);
  }

  /** Replacing one entry by one with the same id, short id and target
      keeps the entry invariants. */
  lemma ReplaceKeepsValidUrls(urls: seq<Url>, i: nat, u: Url)
    requires ValidUrls(urls) && i < |urls|
    requires u.id == urls[i].id && u.shortId == urls[i].shortId && u.redirectUrl == urls[i].redirectUrl
    ensures ValidUrls(urls[i := u])
  {
    var s := urls[i := u];
    forall v | v in s
      ensures v.shortId != "" && UrlPattern.IsValidUrl(v.redirectUrl)
    {
      var k :| 0 <= k < |s| && s[k] == v;
      assert urls[k] in urls;
    }
    forall a, b | 0 <= a < b < |s|
      ensures IdOf(s[a]) != IdOf(s[b]) && ShortIdOf(s[a]) != ShortIdOf(s[b]) && TargetOf(s[a]) != TargetOf(s[b])
    {
      assert IdOf(s[a]) == IdOf(urls[a]) && IdOf(s[b]) == IdOf(urls[b]);
      assert ShortIdOf(s[a]) == ShortIdOf(urls[a]) && ShortIdOf(s[b]) == ShortIdOf(urls[b]);
      assert TargetOf(s[a]) == TargetOf(urls[a]) && TargetOf(s[b]) == TargetOf(urls[b]);
    }
  }

  /** With unique ids, exactly one entry carries the id of the entry at `i`. */
  lemma OneEntryHasId(urls: seq<Url>, i: nat)
    requires i < |urls| && UniqueBy(urls, IdOf)
    ensures |Filter(urls, HasId(urls[i].id))| == 1
  {
    var id := urls[i].id;
    var hit := Filter(urls, HasId(id));
    FilterKeepsUniqueBy(urls, HasId(id), IdOf);
    UniqueKeysCount(hit, IdOf);
    assert urls[i] in hit && HasId(id)(urls[i]);
    assert KeySet(hit, IdOf) == {id} by {
      forall x | x in KeySet(hit, IdOf)
        ensures x == id
      {
        var u :| u in hit && IdOf(u) == x;
        assert HasId(id)(u);
      }
      assert IdOf(urls[i]) in KeySet(hit, IdOf);
    }
  }

  /** Removing the id of the entry at `i` from entries with unique ids
      removes exactly one entry. */
  lemma RemoveUniqueId(urls: seq<Url>, i: nat)
    requires i < |urls| && UniqueBy(urls, IdOf)
    ensures |Filter(urls, LacksId(urls[i].id))| == |urls| - 1
  {
    FilterSplit(urls, LacksId(urls[i].id), HasId(urls[i].id));
    OneEntryHasId(urls, i);
  }

  /** With unique ids, no entry before or after position `i` has its id. */
  lemma OtherIdsDiffer(urls: seq<Url>, i: nat)
    requires i < |urls| && UniqueBy(urls, IdOf)
    ensures forall x | x in urls[..i] :: LacksId(urls[i].id)(x)
    ensures forall x | x in urls[i + 1..] :: LacksId(urls[i].id)(x)
  {
    forall x | x in urls[..i]
      ensures LacksId(urls[i].id)(x)
    {
      var k :| 0 <= k < i && urls[..i][k] == x;
      assert IdOf(urls[k]) != IdOf(urls[i]);
    }
    forall x | x in urls[i + 1..]
      ensures LacksId(urls[i].id)(x)
    {
      var k :| 0 <= k < |urls| - i - 1 && urls[i + 1..][k] == x;
      assert IdOf(urls[i]) != IdOf(urls[i + 1 + k]);
    }
  }

  /** With unique ids, dropping the id of the entry at `i` cuts out just
      that position, keeping the order of the rest. */
  lemma RemoveAtUniqueId(urls: seq<Url>, i: nat)
    requires i < |urls| && UniqueBy(urls, IdOf)
    ensures Filter(urls, LacksId(urls[i].id)) == urls[..i] + urls[i + 1..]
  {
    var a, b := urls[..i], urls[i + 1..];
    assert urls == a + [urls[i]] + b;
    OtherIdsDiffer(urls, i);
    FilterCutOut(a, urls[i], b, LacksId(urls[i].id));
  }

  /** Dropping entries keeps the entry invariants. */
  lemma FilterKeepsValidUrls(urls: seq<Url>, p: Url -> bool)
    requires ValidUrls(urls)
    ensures ValidUrls(Filter(urls, p))
  {
    FilterKeepsUniqueBy(urls, p, IdOf);
    FilterKeepsUniqueBy(urls, p, ShortIdOf);
    FilterKeepsUniqueBy(urls, p, TargetOf);
  }
}
