/** The public scholarship routes: the filtered, ordered and paginated
    listing (`GET /`), fetching one scholarship (`GET /:id`) and applying to
    one (`POST /:id/apply`). Dates are day numbers, instants are
    milliseconds, and the current instant `now` is an argument. */
module ScholarshipRoutes {
  import opened Common
  import opened Seqs
  import opened Text
  import opened Sorting
  import opened Schema
  import Auth

  const MsPerDay: int := 24 * 60 * 60 * 1000

  /** `CURDATE()`: the day that contains the instant `now`. */
  function Today(now: int): int
  {
    now / MsPerDay
  }

  /** `new Date(deadline)`: a deadline date read as the instant of its midnight. */
  function DeadlineInstant(deadline: int): int
  {
    deadline * MsPerDay
  }

  // GET /

  /** The query string of `GET /`, each parameter as sent (absent = `None`). */
  datatype ListQuery = ListQuery(
    category: Option<string>, search: Option<string>,
    minAmount: Option<string>, maxAmount: Option<string>,
    page: Option<string>, limit: Option<string>)

  const DefaultMinAmount: int := 0
  const DefaultMaxAmount: int := 999999
  const DefaultPage: int := 1
  const DefaultLimit: int := 20
  const MaxLimit: int := 100

  predicate IntAtLeast(s: string, lo: int)
  {
    ParseInt(s).Some? && lo <= ParseInt(s).value
  }

  predicate IntBetween(s: string, lo: int, hi: int)
  {
    ParseInt(s).Some? && lo <= ParseInt(s).value <= hi
  }

  /** The validators of `GET /`: every present parameter that fails its check, in declaration order. */
  function ListViolations(q: ListQuery): (v: seq<string>)
    ensures v == [] <==>
      && (q.category.Some? ==> ParseCategory(q.category.value).Some?)
      && (q.minAmount.Some? ==> ParseInt(q.minAmount.value).Some?)
      && (q.maxAmount.Some? ==> ParseInt(q.maxAmount.value).Some?)
      && (q.page.Some? ==> IntAtLeast(q.page.value, 1))
      && (q.limit.Some? ==> IntBetween(q.limit.value, 1, MaxLimit))
  {
    (if q.category.Some? && ParseCategory(q.category.value).None? then ["category"] else [])
    + (if q.minAmount.Some? && ParseInt(q.minAmount.value).None? then ["minAmount"] else [])
    + (if q.maxAmount.Some? && ParseInt(q.maxAmount.value).None? then ["maxAmount"] else [])
    + (if q.page.Some? && !IntAtLeast(q.page.value, 1) then ["page"] else [])
    + (if q.limit.Some? && !IntBetween(q.limit.value, 1, MaxLimit) then ["limit"] else [])
  }

  /** The validated listing criteria. `search` is the trimmed term; empty means no search. */
  datatype Criteria = Criteria(
    category: Option<Category>, search: string, minAmount: int, maxAmount: int,
    page: int, limit: int)

  /** The criteria of a valid query, defaults filled in. */
  function CriteriaOf(q: ListQuery): (c: Criteria)
    requires ListViolations(q) == []
    ensures c.page >= 1 && 1 <= c.limit <= MaxLimit
  {
    Criteria(
      if q.category.Some? then ParseCategory(q.category.value) else None,
      if q.search.Some? then Trim(q.search.value) else [],
      if q.minAmount.Some? then ParseInt(q.minAmount.value).value else DefaultMinAmount,
      if q.maxAmount.Some? then ParseInt(q.maxAmount.value).value else DefaultMaxAmount,
      if q.page.Some? then ParseInt(q.page.value).value else DefaultPage,
      if q.limit.Some? then ParseInt(q.limit.value).value else DefaultLimit)
  }

  /** Search over title, description and category name, case-insensitive. */
  predicate SearchHit(s: Scholarship, term: string)
  {
    || ContainsIgnoreCase(s.title, term)
    || ContainsIgnoreCase(s.description, term)
    || ContainsIgnoreCase(CategoryName(s.category), term)
  }

  /** The `WHERE` clause shared by the listing and its count. */
  predicate Matches(c: Criteria, today: int, s: Scholarship)
  {
    && s.status == Active
    && s.deadline >= today
    && (c.category.Some? ==> s.category == c.category.value)
    && (c.search != [] ==> SearchHit(s, c.search))
    && c.minAmount <= s.amount <= c.maxAmount
  }

  /** The rows the listing query selects, before ordering and paging. */
  function Matching(db: Db, c: Criteria, today: int): (r: seq<Scholarship>)
    ensures forall i :: 0 <= i < |r| ==>
      && r[i] in db.scholarships
      && r[i].status == Active && r[i].deadline >= today
      && (c.category.Some? ==> r[i].category == c.category.value)
      && (c.search != [] ==> SearchHit(r[i], c.search))
      && c.minAmount <= r[i].amount <= c.maxAmount
    ensures forall i :: 0 <= i < |db.scholarships| && Matches(c, today, db.scholarships[i]) ==>
      db.scholarships[i] in r
    ensures IsSubsequence(r, db.scholarships)
    ensures |r| == CountWhere(db.scholarships, (s: Scholarship) => Matches(c, today, s))
  {
    FilterIsSubsequence(db.scholarships, (s: Scholarship) => Matches(c, today, s));
    FilterLength(db.scholarships, (s: Scholarship) => Matches(c, today, s));
    Filter(db.scholarships, (s: Scholarship) => Matches(c, today, s))
  }

  /** `ORDER BY featured DESC, deadline ASC`: `a` may come before `b`. */
  predicate FeaturedFirst(a: Scholarship, b: Scholarship)
  {
    (a.featured && !b.featured) || (a.featured == b.featured && a.deadline <= b.deadline)
  }

  lemma FeaturedFirstIsTotalPreorder()
    ensures TotalPreorder(FeaturedFirst)
  {
  }

  /** The matching rows in listing order. */
  function Ordered(db: Db, c: Criteria, today: int): (r: seq<Scholarship>)
    ensures multiset(r) == multiset(Matching(db, c, today))
    ensures forall i, j :: 0 <= i < j < |r| ==> (r[i].featured || !r[j].featured)
    ensures forall i, j :: 0 <= i < j < |r| && r[i].featured == r[j].featured ==> r[i].deadline <= r[j].deadline
  {
    FeaturedFirstIsTotalPreorder();
    Sort(Matching(db, c, today), FeaturedFirst)
  }

  /** `LIMIT limit OFFSET (page - 1) * limit`. */
  function PageRows<T>(rows: seq<T>, page: int, limit: int): (r: seq<T>)
    requires page >= 1 && limit >= 1
    ensures |r| <= limit
    ensures (page - 1) * limit >= |rows| ==> r == []
    ensures (page - 1) * limit < |rows| ==>
      && |r| == (if page * limit <= |rows| then limit else |rows| - (page - 1) * limit)
      && forall k :: 0 <= k < |r| ==> r[k] == rows[(page - 1) * limit + k]
  {
    Window(rows, (page - 1) * limit, limit)
  }

  /** A page is a contiguous run of the rows. */
  lemma PageIsRun<T>(rows: seq<T>, page: int, limit: int) returns (off: nat)
    requires page >= 1 && limit >= 1
    ensures off + |PageRows(rows, page, limit)| <= |rows|
    ensures forall k :: 0 <= k < |PageRows(rows, page, limit)| ==> PageRows(rows, page, limit)[k] == rows[off + k]
  {
    off := if (page - 1) * limit >= |rows| then |rows| else (page - 1) * limit;
  }

  /** `Math.ceil(total / limit)`. */
  function PageCount(total: nat, limit: int): (pages: nat)
    requires limit >= 1
    ensures total <= pages * limit
    ensures total > 0 ==> (pages - 1) * limit < total
    ensures total == 0 ==> pages == 0
  {
    (total + limit - 1) / limit
  }

  /** Row `k` of the ordered result appears on page `k / limit + 1` at position `k % limit`. */
  lemma RowOnItsPage<T>(rows: seq<T>, limit: int, k: int)
    requires limit >= 1 && 0 <= k < |rows|
    ensures var p := k / limit + 1;
      1 <= p <= PageCount(|rows|, limit) && |PageRows(rows, p, limit)| > k % limit &&
      PageRows(rows, p, limit)[k % limit] == rows[k]
  {
    var p := k / limit + 1;
    var off := (p - 1) * limit;
    assert off + k % limit == k;
    var pages := PageCount(|rows|, limit);
    assert off < pages * limit;
    MulCancel(p - 1, pages, limit);
    var page := PageRows(rows, p, limit);
    assert |page| > k % limit;
    assert page[k % limit] == rows[off + k % limit];
  }

  lemma MulCancel(a: int, b: int, c: int)
    requires c > 0 && a * c < b * c
    ensures a < b
  {
  }

  /** A page past the last one is empty, not an error. */
  lemma PagePastEndEmpty<T>(rows: seq<T>, page: int, limit: int)
    requires limit >= 1 && page > PageCount(|rows|, limit)
    ensures PageRows(rows, page, limit) == []
  {
    var pages := PageCount(|rows|, limit);
    assert (page - 1) * limit >= pages * limit by {
      assert page - 1 >= pages;
    }
  }

  /** What `GET /` answers: the page of rows and the pagination block. */
  datatype Listing = Listing(items: seq<View>, page: int, limit: int, total: nat, pages: nat)

  /** The rows of the requested page, in listing order. */
  function PageOf(db: Db, c: Criteria, now: int): seq<Scholarship>
    requires c.page >= 1 && c.limit >= 1
  {
    PageRows(Ordered(db, c, Today(now)), c.page, c.limit)
  }

  /** Every row of an ordered result is a stored row that satisfies the query. */
  lemma OrderedRowsMatch(db: Db, c: Criteria, today: int)
    ensures forall i :: 0 <= i < |Ordered(db, c, today)| ==>
      Ordered(db, c, today)[i] in db.scholarships && Matches(c, today, Ordered(db, c, today)[i])
  {
    var all := Ordered(db, c, today);
    var m := Matching(db, c, today);
    forall i | 0 <= i < |all|
      ensures all[i] in db.scholarships && Matches(c, today, all[i])
    {
      assert all[i] in multiset(all);
      assert all[i] in multiset(m);
      assert all[i] in m;
    }
  }

  /** `GET /`: validate, select, order, page, and count the same selection unpaged. */
  function List(db: Db, q: ListQuery, now: int): (r: Result<Listing>)
    ensures r.Err? && r.failure.ValidationFailed? <==> ListViolations(q) != []
    ensures r.Ok? ==>
      var c := CriteriaOf(q);
      && r.value.page == c.page && r.value.limit == c.limit
      && r.value.total == |Matching(db, c, Today(now))|
      && r.value.pages == PageCount(r.value.total, c.limit)
      && |r.value.items| == |PageOf(db, c, now)| <= c.limit
      && forall k :: 0 <= k < |r.value.items| ==> ToView(PageOf(db, c, now)[k]) == Some(r.value.items[k])
  {
    var v := ListViolations(q);
    if v != [] then Err(ValidationFailed(v))
    else
      var c := CriteriaOf(q);
      var total := |Matching(db, c, Today(now))|;
      match ToViews(PageOf(db, c, now))
      case None =>
        Err(Unexpected)
      case Some(items) =>
        Ok(Listing(items, c.page, c.limit, total, PageCount(total, c.limit)))
  }

  /** Every row of a page is a stored row satisfying the query: active,
      deadline on or after today, the requested category, the search term in
      title, description or category name, the amount in the inclusive range. */
  lemma PageRowsMatch(db: Db, c: Criteria, now: int)
    requires c.page >= 1 && c.limit >= 1
    ensures var rows := PageOf(db, c, now);
      forall k :: 0 <= k < |rows| ==>
        && rows[k] in db.scholarships
        && rows[k].status == Active
        && rows[k].deadline >= Today(now)
        && (c.category.Some? ==> rows[k].category == c.category.value)
        && (c.search != [] ==>
              || ContainsIgnoreCase(rows[k].title, c.search)
              || ContainsIgnoreCase(rows[k].description, c.search)
              || ContainsIgnoreCase(CategoryName(rows[k].category), c.search))
        && c.minAmount <= rows[k].amount <= c.maxAmount
  {
    var all := Ordered(db, c, Today(now));
    var rows := PageOf(db, c, now);
    OrderedRowsMatch(db, c, Today(now));
    var off := PageIsRun(all, c.page, c.limit);
    forall k | 0 <= k < |rows|
      ensures rows[k] in db.scholarships && Matches(c, Today(now), rows[k])
    {
      assert rows[k] == all[off + k];
    }
  }

  /** A page lists featured rows first, then by ascending deadline. */
  lemma PageRowsOrdered(db: Db, c: Criteria, now: int)
    requires c.page >= 1 && c.limit >= 1
    ensures var rows := PageOf(db, c, now);
      && (forall i, j :: 0 <= i < j < |rows| ==> rows[i].featured || !rows[j].featured)
      && (forall i, j :: 0 <= i < j < |rows| && rows[i].featured == rows[j].featured ==>
            rows[i].deadline <= rows[j].deadline)
  {
    var all := Ordered(db, c, Today(now));
    var rows := PageOf(db, c, now);
    var off := PageIsRun(all, c.page, c.limit);
    forall i, j | 0 <= i < j < |rows|
      ensures rows[i] == all[off + i] && rows[j] == all[off + j]
    {
    }
  }

  /** On a consistent store a valid query always succeeds: every selected row decodes. */
  lemma ListSucceeds(db: Db, q: ListQuery, now: int)
    requires Valid(db) && ListViolations(q) == []
    ensures List(db, q, now).Ok?
  {
    var c := CriteriaOf(q);
    var rows := PageOf(db, c, now);
    PageRowsMatch(db, c, now);
    forall k | 0 <= k < |rows| ensures ListsWellFormed(rows[k]) {
      var j :| 0 <= j < |db.scholarships| && db.scholarships[j] == rows[k];
    }
  }

  /** The criteria of a query that sets nothing. */
  lemma DefaultCriteria()
    ensures CriteriaOf(ListQuery(None, None, None, None, None, None)) ==
      Criteria(None, [], 0, 999999, 1, 20)
  {
  }

  // GET /:id

  predicate IsActiveRow(id: nat, s: Scholarship)
  {
    s.id == id && s.status == Active
  }

  /** `GET /:id`: the active row with that id, or 404. */
  function Get(db: Db, id: nat): (r: Result<View>)
    ensures r == Err(NotFound) <==>
      forall i :: 0 <= i < |db.scholarships| ==> !(db.scholarships[i].id == id && db.scholarships[i].status == Active)
    ensures r.Ok? ==> r.value.id == id && r.value.status == Active
    ensures r.Ok? ==>
      exists i :: 0 <= i < |db.scholarships| && IsActiveRow(id, db.scholarships[i]) && ToView(db.scholarships[i]) == Some(r.value)
    ensures Valid(db) ==> r.Ok? || r == Err(NotFound)
  {
    match Find(db.scholarships, (s: Scholarship) => IsActiveRow(id, s))
    case None => Err(NotFound)
    case Some(s) =>
      match ToView(s)
      case None => Err(Unexpected)
      case Some(v) => Ok(v)
  }

  // POST /:id/apply

  /** The body of an application request. */
  datatype ApplyBody = ApplyBody(applicationData: Option<Json>)

  /** The row an admitted application inserts. */
  function NewApplication(db: Db, id: nat, caller: nat, data: Json, now: int): Application
  {
    Application(db.nextApplicationId, id, caller, DefaultApplicationStatus, data, now, None, None, None)
  }

  /** `POST /:id/apply` for the authenticated user `caller`: 400 unless
      `applicationData` is an object; 404 unless the scholarship exists and
      is active; 400 when its deadline's midnight is strictly before now; 400
      when the caller already applied; otherwise one pending row is inserted
      and the answer is 201. */
  function Apply(db: Db, id: nat, caller: nat, body: ApplyBody, now: int): (r: Reply<()>)
    ensures r.result.Err? ==> r.db == db
    ensures r.result == Err(ValidationFailed(["applicationData"])) <==>
      !(body.applicationData.Some? && body.applicationData.value.JObject?)
    ensures body.applicationData.Some? && body.applicationData.value.JObject? ==>
      (r.result == Err(NotFound) <==>
        forall i :: 0 <= i < |db.scholarships| ==> !IsActiveRow(id, db.scholarships[i]))
    ensures r.result == Err(DeadlinePassed) ==>
      exists i :: 0 <= i < |db.scholarships| && IsActiveRow(id, db.scholarships[i]) &&
        DeadlineInstant(db.scholarships[i].deadline) < now
    ensures r.result == Err(AlreadyApplied) ==> HasApplied(db, id, caller)
    ensures r.result.Ok? ==>
      && !HasApplied(db, id, caller)
      && (exists i :: 0 <= i < |db.scholarships| && IsActiveRow(id, db.scholarships[i]) &&
            now <= DeadlineInstant(db.scholarships[i].deadline))
      && r.db == db.(applications := db.applications + [NewApplication(db, id, caller, body.applicationData.value, now)],
                     nextApplicationId := db.nextApplicationId + 1)
  {
    if !(body.applicationData.Some? && body.applicationData.value.JObject?) then
      Reply(db, Err(ValidationFailed(["applicationData"])))
    else
      match Find(db.scholarships, (s: Scholarship) => IsActiveRow(id, s))
      case None => Reply(db, Err(NotFound))
      case Some(s) =>
        if DeadlineInstant(s.deadline) < now then Reply(db, Err(DeadlinePassed))
        else if HasApplied(db, id, caller) then Reply(db, Err(AlreadyApplied))
        else
          var app := NewApplication(db, id, caller, body.applicationData.value, now);
          Reply(db.(applications := db.applications + [app], nextApplicationId := db.nextApplicationId + 1), Ok(()))
  }

  /** With scholarship ids unique, the checks run in order on the one row:
      deadline first, then the earlier application, then the insert. */
  lemma ApplyDecision(db: Db, k: nat, caller: nat, data: Json, now: int)
    requires Pairwise(db.scholarships, DistinctScholarshipId)
    requires k < |db.scholarships| && db.scholarships[k].status == Active && data.JObject?
    ensures var s := db.scholarships[k];
      var r := Apply(db, s.id, caller, ApplyBody(Some(data)), now);
      && (DeadlineInstant(s.deadline) < now ==> r.result == Err(DeadlinePassed))
      && (now <= DeadlineInstant(s.deadline) && HasApplied(db, s.id, caller) ==> r.result == Err(AlreadyApplied))
      && (now <= DeadlineInstant(s.deadline) && !HasApplied(db, s.id, caller) ==> r.result == Ok(()))
  {
    var s := db.scholarships[k];
    var f := Find(db.scholarships, (t: Scholarship) => IsActiveRow(s.id, t));
    assert f.Some?;
    var j :| 0 <= j < |db.scholarships| && db.scholarships[j] == f.value;
  }

  /** An application keeps every constraint, in particular one application per pair. */
  lemma ApplyValid(db: Db, id: nat, caller: nat, body: ApplyBody, now: int)
    requires Valid(db) && HasUser(db, caller)
    ensures Valid(Apply(db, id, caller, body, now).db)
  {
    var r := Apply(db, id, caller, body, now);
    if r.result.Ok? {
      var app := NewApplication(db, id, caller, body.applicationData.value, now);
      assert r.db.applications == db.applications + [app];
      PairwiseAppend(db.applications, app, DistinctApplicationId);
      PairwiseAppend(db.applications, app, DistinctPair);
      forall i | 0 <= i < |r.db.applications|
        ensures HasScholarship(r.db, r.db.applications[i].scholarshipId) && HasUser(r.db, r.db.applications[i].userId)
      {
        if i < |db.applications| {
          assert r.db.applications[i] == db.applications[i];
        }
      }
    }
  }

  /** Applying twice for the same pair stores one application; the second attempt is refused. */
  lemma ApplyTwice(db: Db, id: nat, caller: nat, body: ApplyBody, now: int, later: int)
    requires Apply(db, id, caller, body, now).result.Ok?
    ensures var db1 := Apply(db, id, caller, body, now).db;
      && (forall i :: 0 <= i < |db1.applications| ==>
            (db1.applications[i].scholarshipId == id && db1.applications[i].userId == caller <==>
             i == |db1.applications| - 1))
      && (Apply(db1, id, caller, body, later).result == Err(AlreadyApplied) ||
          Apply(db1, id, caller, body, later).result == Err(DeadlinePassed))
      && Apply(db1, id, caller, body, later).db == db1
  {
    var db1 := Apply(db, id, caller, body, now).db;
    assert db1.applications[|db.applications|].scholarshipId == id;
    assert db1.scholarships == db.scholarships;
  }

  /** On the deadline day itself, after midnight, a scholarship is still listed
      but an application to it is refused. */
  lemma DeadlineDayListedButRefused(db: Db, k: nat, caller: nat, data: Json, now: int)
    requires Pairwise(db.scholarships, DistinctScholarshipId)
    requires k < |db.scholarships| && db.scholarships[k].status == Active && data.JObject?
    requires db.scholarships[k].deadline == Today(now) && now % MsPerDay != 0
    requires 0 <= db.scholarships[k].amount <= 999999
    ensures db.scholarships[k] in Matching(db, Criteria(None, [], 0, 999999, 1, 20), Today(now))
    ensures Apply(db, db.scholarships[k].id, caller, ApplyBody(Some(data)), now).result == Err(DeadlinePassed)
  {
    var s := db.scholarships[k];
    var c := Criteria(None, [], 0, 999999, 1, 20);
    assert Matches(c, Today(now), s);
    MidnightBefore(now);
    ApplyDecision(db, k, caller, data, now);
  }

  /** Unless `now` is itself a midnight, the midnight of its day lies before it. */
  lemma MidnightBefore(now: int)
    requires now % MsPerDay != 0
    ensures DeadlineInstant(Today(now)) < now
  {
  }

  /** `POST /:id/apply` behind `authenticateToken`. */
  function ApplyRoute(db: Db, header: Option<string>, verify: string -> Option<nat>,
                      id: nat, body: ApplyBody, now: int): (r: Reply<()>)
    ensures Auth.Authenticate(db, header, verify).Err? ==>
      r == Reply(db, Err(Auth.Authenticate(db, header, verify).failure))
    ensures Auth.Authenticate(db, header, verify).Ok? ==>
      r == Apply(db, id, Auth.Authenticate(db, header, verify).value.id, body, now)
  {
    match Auth.Authenticate(db, header, verify)
    case Err(f) => Reply(db, Err(f))
    case Ok(who) => Apply(db, id, who.id, body, now)
  }

  /** The authenticated route keeps every constraint: the caller's row exists. */
  lemma ApplyRouteValid(db: Db, header: Option<string>, verify: string -> Option<nat>,
                        id: nat, body: ApplyBody, now: int)
    requires Valid(db)
    ensures Valid(ApplyRoute(db, header, verify, id, body, now).db)
  {
    var a := Auth.Authenticate(db, header, verify);
    if a.Ok? {
      var i :| 0 <= i < |db.users| && Auth.IdentityOf(db.users[i]) == a.value;
      assert HasUser(db, a.value.id);
      ApplyValid(db, id, a.value.id, body, now);
    }
  }
}
