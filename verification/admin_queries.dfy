/** The administrator's read-only queries: the dashboard statistics and
    the two paginated listings of scholarships and of applications. Counts
    and sums are folds over the tables; joins look rows up by id. */
module AdminQueries {
  import opened Common
  import opened Seqs
  import opened Text
  import opened Sorting
  import opened Schema

  const RecentCount: nat := 10
  const DefaultAdminPage: int := 1
  const DefaultAdminLimit: int := 20

  // GET /dashboard

  /** One line of `recentApplications`: the application joined with its
      scholarship's title and its applicant's name and e-mail. */
  datatype RecentApplication = RecentApplication(
    id: nat, status: ApplicationStatus, submittedAt: int,
    scholarshipTitle: string, firstName: string, lastName: string, email: string)

  datatype Dashboard = Dashboard(
    totalScholarships: nat, activeScholarships: nat, featuredScholarships: nat,
    totalFunding: Option<int>,
    totalApplications: nat, pendingApplications: nat, approvedApplications: nat,
    rejectedApplications: nat,
    totalUsers: nat, adminUsers: nat,
    recent: seq<RecentApplication>)

  predicate IsActive(s: Scholarship) { s.status == Active }
  predicate IsFeatured(s: Scholarship) { s.featured }
  function AmountOf(s: Scholarship): int { s.amount }

  predicate HasStatus(st: ApplicationStatus, a: Application) { a.status == st }

  predicate ScholarshipHasId(id: nat, s: Scholarship) { s.id == id }
  predicate UserHasId(id: nat, u: User) { u.id == id }

  /** `JOIN scholarships s ON a.scholarship_id = s.id JOIN users u ON a.user_id = u.id`
      for one application: `None` when either side is missing. */
  function JoinRecent(db: Db, a: Application): (r: Option<RecentApplication>)
    ensures r.Some? <==> HasScholarship(db, a.scholarshipId) && HasUser(db, a.userId)
    ensures r.Some? ==> r.value.id == a.id && r.value.status == a.status && r.value.submittedAt == a.submittedAt
  {
    match (Find(db.scholarships, (s: Scholarship) => ScholarshipHasId(a.scholarshipId, s)),
           Find(db.users, (u: User) => UserHasId(a.userId, u)))
    case (Some(s), Some(u)) =>
      Some(RecentApplication(a.id, a.status, a.submittedAt, s.title, u.firstName, u.lastName, u.email))
    case _ => None
  }

  predicate Joins(db: Db, a: Application) { JoinRecent(db, a).Some? }

  /** The inner join of every application, in table order: one line per
      application that joins, and nothing else. */
  function Joined(db: Db): (r: seq<RecentApplication>)
    ensures |r| == CountWhere(db.applications, (a: Application) => Joins(db, a))
    ensures forall k :: 0 <= k < |r| ==> exists i :: 0 <= i < |db.applications| && JoinRecent(db, db.applications[i]) == Some(r[k])
    ensures forall i :: 0 <= i < |db.applications| && Joins(db, db.applications[i]) ==> JoinRecent(db, db.applications[i]).value in r
  {
    CollectLength(db.applications, (a: Application) => JoinRecent(db, a), (a: Application) => Joins(db, a));
    Collect(db.applications, (a: Application) => JoinRecent(db, a))
  }

  /** `ORDER BY a.submitted_at DESC`. */
  predicate NewerSubmission(a: RecentApplication, b: RecentApplication)
  {
    a.submittedAt >= b.submittedAt
  }

  lemma NewerSubmissionIsTotalPreorder()
    ensures TotalPreorder(NewerSubmission)
  {
  }

  /** `ORDER BY a.submitted_at DESC LIMIT 10` over the join. */
  function Recent(db: Db): (r: seq<RecentApplication>)
    ensures |r| == if |Joined(db)| < RecentCount then |Joined(db)| else RecentCount
    ensures forall i, j :: 0 <= i < j < |r| ==> NewerSubmission(r[i], r[j])
    ensures forall k :: 0 <= k < |r| ==> r[k] in Joined(db)
    ensures |Joined(db)| <= RecentCount ==> forall x :: x in Joined(db) ==> x in r
    ensures multiset(r) <= multiset(Joined(db))
  {
    NewerSubmissionIsTotalPreorder();
    TopRows(Joined(db), NewerSubmission, RecentCount);
    Window(Sort(Joined(db), NewerSubmission), 0, RecentCount)
  }

  /** `GET /dashboard`. `SUM` over an empty table is `NULL`. */
  function DashboardOf(db: Db): (r: Dashboard)
    ensures r.totalScholarships == |db.scholarships| && r.totalApplications == |db.applications| && r.totalUsers == |db.users|
    ensures r.activeScholarships == |Filter(db.scholarships, IsActive)|
    ensures r.featuredScholarships == |Filter(db.scholarships, IsFeatured)|
    ensures r.adminUsers == |Filter(db.users, IsAdmin)|
    ensures r.pendingApplications == |Filter(db.applications, (a: Application) => HasStatus(Pending, a))|
    ensures r.approvedApplications == |Filter(db.applications, (a: Application) => HasStatus(Approved, a))|
    ensures r.rejectedApplications == |Filter(db.applications, (a: Application) => HasStatus(Rejected, a))|
    ensures r.recent == Recent(db)
  {
    FilterLength(db.scholarships, IsActive);
    FilterLength(db.scholarships, IsFeatured);
    FilterLength(db.users, IsAdmin);
    FilterLength(db.applications, (a: Application) => HasStatus(Pending, a));
    FilterLength(db.applications, (a: Application) => HasStatus(Approved, a));
    FilterLength(db.applications, (a: Application) => HasStatus(Rejected, a));
    Dashboard(
      |db.scholarships|,
      CountWhere(db.scholarships, IsActive),
      CountWhere(db.scholarships, IsFeatured),
      if db.scholarships == [] then None else Some(SumWhere(db.scholarships, IsActive, AmountOf)),
      |db.applications|,
      CountWhere(db.applications, (a: Application) => HasStatus(Pending, a)),
      CountWhere(db.applications, (a: Application) => HasStatus(Approved, a)),
      CountWhere(db.applications, (a: Application) => HasStatus(Rejected, a)),
      |db.users|,
      CountWhere(db.users, IsAdmin),
      Recent(db))
  }

  /** The dashboard's arithmetic: each count is the size of the matching
      selection and at most the table size; the funding sums the active
      rows' amounts only; the three reported application statuses account
      for every application except those under review. */
  lemma DashboardArithmetic(db: Db)
    ensures var d := DashboardOf(db);
      && d.activeScholarships == |Filter(db.scholarships, IsActive)| <= d.totalScholarships
      && d.featuredScholarships <= d.totalScholarships
      && d.adminUsers == |Filter(db.users, IsAdmin)| <= d.totalUsers
      && (d.totalFunding.None? <==> db.scholarships == [])
      && (d.totalFunding.Some? ==> d.totalFunding.value == Sum(Filter(db.scholarships, IsActive), AmountOf))
      && d.pendingApplications + d.approvedApplications + d.rejectedApplications ==
           d.totalApplications - CountWhere(db.applications, (a: Application) => HasStatus(UnderReview, a))
  {
    FilterLength(db.scholarships, IsActive);
    FilterLength(db.users, IsAdmin);
    CountBound(db.scholarships, IsFeatured);
    SumWhereIsSumOfFilter(db.scholarships, IsActive, AmountOf);
    CountPartition4(db.applications,
      (a: Application) => HasStatus(Pending, a), (a: Application) => HasStatus(Approved, a),
      (a: Application) => HasStatus(Rejected, a), (a: Application) => HasStatus(UnderReview, a));
  }

  /** Inactive and expired rows never change the total funding. */
  lemma FundingIgnoresInactive(db: Db, s: Scholarship)
    requires s.status != Active && db.scholarships != []
    ensures DashboardOf(db.(scholarships := db.scholarships + [s])).totalFunding == DashboardOf(db).totalFunding
  {
    SumWhereIsSumOfFilter(db.scholarships + [s], IsActive, AmountOf);
    SumWhereIsSumOfFilter(db.scholarships, IsActive, AmountOf);
    FilterAppend(db.scholarships, [s], IsActive);
    assert Filter([s], IsActive) == [];
    assert Filter(db.scholarships, IsActive) + [] == Filter(db.scholarships, IsActive);
  }

  /** On a consistent store every application joins, so the dashboard
      shows the ten newest applications, or all of them when fewer. */
  lemma RecentOnValidStore(db: Db)
    requires Valid(db)
    ensures |Recent(db)| == if |db.applications| < RecentCount then |db.applications| else RecentCount
    ensures forall i :: 0 <= i < |db.applications| ==> JoinRecent(db, db.applications[i]).Some?
    ensures |db.applications| <= RecentCount ==>
      forall i :: 0 <= i < |db.applications| ==> JoinRecent(db, db.applications[i]).value in Recent(db)
  {
    forall i | 0 <= i < |db.applications| ensures Joins(db, db.applications[i]) {
    }
    FilterAll(db.applications, (a: Application) => Joins(db, a));
    FilterLength(db.applications, (a: Application) => Joins(db, a));
  }

  /** No joined application left off the dashboard is newer than one shown on it. */
  lemma RecentAreNewest(db: Db, x: RecentApplication)
    requires x in Joined(db) && x !in Recent(db)
    ensures forall k :: 0 <= k < |Recent(db)| ==> Recent(db)[k].submittedAt >= x.submittedAt
  {
    NewerSubmissionIsTotalPreorder();
    var sorted := Sort(Joined(db), NewerSubmission);
    SortKeepsRows(Joined(db), NewerSubmission);
    assert Recent(db) == Window(sorted, 0, RecentCount);
    LeftOutComesAfter(sorted, RecentCount, NewerSubmission, x);
  }

  // Paging of the admin listings

  /** `const { page = 1, limit = 20 } = req.query; offset = (page - 1) * limit`
      and `LIMIT parseInt(limit) OFFSET offset`: a text that is not an integer
      or a negative offset or limit makes the query fail, which the route
      answers with 500. The result is (offset, limit). */
  function Paging(page: Option<string>, limit: Option<string>): (r: Result<(nat, nat)>)
    ensures r.Err? ==> r.failure == Unexpected
    ensures r.Ok? <==>
      var p := if page.Some? then ParseInt(page.value) else Some(DefaultAdminPage);
      var l := if limit.Some? then ParseInt(limit.value) else Some(DefaultAdminLimit);
      p.Some? && l.Some? && l.value >= 0 && (p.value - 1) * l.value >= 0
    ensures r.Ok? ==>
      var p := if page.Some? then ParseInt(page.value).value else DefaultAdminPage;
      r.value.1 == (if limit.Some? then ParseInt(limit.value).value else DefaultAdminLimit) &&
      r.value.0 == (p - 1) * r.value.1
  {
    var p := if page.Some? then ParseInt(page.value) else Some(DefaultAdminPage);
    var l := if limit.Some? then ParseInt(limit.value) else Some(DefaultAdminLimit);
    if p.None? || l.None? || l.value < 0 || (p.value - 1) * l.value < 0 then Err(Unexpected)
    else Ok(((p.value - 1) * l.value, l.value))
  }

  /** Page `p` of `l` rows, sent as decimal text, starts at row `(p - 1) * l`. */
  lemma PagingOfNumbers(p: int, l: int)
    requires p >= 1 && l >= 0
    ensures Paging(Some(ShowInt(p)), Some(ShowInt(l))) == Ok(((p - 1) * l, l))
    ensures Paging(None, None) == Ok((0, 20))
  {
    ParseShowInt(p);
    ParseShowInt(l);
    MulNonNegative(p - 1, l);
  }

  /** Page 0 or a negative page is refused with 500 unless the limit is 0. */
  lemma PagingBeforeFirstPage(p: int, l: int)
    requires p <= 0 && l >= 1
    ensures Paging(Some(ShowInt(p)), Some(ShowInt(l))) == Err(Unexpected)
  {
    ParseShowInt(p);
    ParseShowInt(l);
    assert (p - 1) * l < 0 by { MulNegative(p - 1, l); }
  }

  lemma MulNonNegative(a: int, b: int)
    requires a >= 0 && b >= 0
    ensures a * b >= 0
  {
  }

  lemma MulNegative(a: int, b: int)
    requires a < 0 && b > 0
    ensures a * b < 0
  {
  }

  /** A filter parameter applies only when it is a non-empty text (`if (status)`). */
  predicate Given(f: Option<string>)
  {
    f.Some? && f.value != []
  }

  // GET /scholarships

  datatype ScholarshipQuery = ScholarshipQuery(
    page: Option<string>, limit: Option<string>, status: Option<string>, category: Option<string>)

  /** One row of the admin scholarship listing: the decoded row, its
      author's name from the left join, and its number of applications. */
  datatype AdminScholarship = AdminScholarship(
    view: View, createdAt: int, createdBy: Option<(string, string)>, applicationCount: nat)

  /** The `WHERE` clause; the filters compare stored names with the text as sent. */
  predicate ScholarshipSelected(q: ScholarshipQuery, s: Scholarship)
  {
    && (Given(q.status) ==> ScholarshipStatusName(s.status) == q.status.value)
    && (Given(q.category) ==> CategoryName(s.category) == q.category.value)
  }

  /** `ORDER BY s.created_at DESC`. */
  predicate NewerCreation(a: Scholarship, b: Scholarship)
  {
    a.createdAt >= b.createdAt
  }

  lemma NewerCreationIsTotalPreorder()
    ensures TotalPreorder(NewerCreation)
  {
  }

  predicate ForScholarship(id: nat, a: Application) { a.scholarshipId == id }

  /** `LEFT JOIN users u ON s.created_by = u.id`: the first and last name
      of the author's user row, or nothing when there is no such row. */
  function AuthorName(db: Db, s: Scholarship): (r: Option<(string, string)>)
    ensures r.None? <==> s.createdBy.None? || !HasUser(db, s.createdBy.value)
    ensures r.Some? ==>
      exists i :: 0 <= i < |db.users| && db.users[i].id == s.createdBy.value && r.value == (db.users[i].firstName, db.users[i].lastName)
  {
    if s.createdBy.None? then None
    else
      match Find(db.users, (u: User) => UserHasId(s.createdBy.value, u))
      case None => None
      case Some(u) => Some((u.firstName, u.lastName))
  }

  /** The selected rows, newest first, before paging. */
  function SelectedScholarships(db: Db, q: ScholarshipQuery): (r: seq<Scholarship>)
    ensures forall k :: 0 <= k < |r| ==> r[k] in db.scholarships && ScholarshipSelected(q, r[k])
    ensures forall i, j :: 0 <= i < j < |r| ==> r[i].createdAt >= r[j].createdAt
    ensures |r| == CountWhere(db.scholarships, (s: Scholarship) => ScholarshipSelected(q, s))
    ensures forall i :: 0 <= i < |db.scholarships| && ScholarshipSelected(q, db.scholarships[i]) ==> db.scholarships[i] in r
    ensures multiset(r) == multiset(Filter(db.scholarships, (s: Scholarship) => ScholarshipSelected(q, s)))
  {
    var sel := Filter(db.scholarships, (s: Scholarship) => ScholarshipSelected(q, s));
    NewerCreationIsTotalPreorder();
    SortKeepsRows(sel, NewerCreation);
    SortKeepsProperty(sel, NewerCreation, (s: Scholarship) => s in db.scholarships && ScholarshipSelected(q, s));
    FilterLength(db.scholarships, (s: Scholarship) => ScholarshipSelected(q, s));
    Sort(sel, NewerCreation)
  }

  /** Decorate a page of rows, or fail when a list column does not parse. */
  function Decorate(db: Db, rows: seq<Scholarship>): (r: Option<seq<AdminScholarship>>)
    ensures r.Some? <==> forall k :: 0 <= k < |rows| ==> ListsWellFormed(rows[k])
    ensures r.Some? ==> |r.value| == |rows| && forall k :: 0 <= k < |rows| ==>
      && ToView(rows[k]) == Some(r.value[k].view)
      && r.value[k].createdAt == rows[k].createdAt
      && r.value[k].createdBy == AuthorName(db, rows[k])
      && r.value[k].applicationCount == CountWhere(db.applications, (a: Application) => ForScholarship(rows[k].id, a))
  {
    match ToViews(rows)
    case None => None
    case Some(views) =>
      Some(seq(|rows|, k requires 0 <= k < |rows| =>
        AdminScholarship(views[k], rows[k].createdAt, AuthorName(db, rows[k]),
          CountWhere(db.applications, (a: Application) => ForScholarship(rows[k].id, a)))))
  }

  /** `GET /scholarships` (admin): filter, order newest first, page, and
      attach author and application count. */
  function ListScholarships(db: Db, q: ScholarshipQuery): (r: Result<seq<AdminScholarship>>)
    ensures r.Err? ==> r.failure == Unexpected
    ensures Paging(q.page, q.limit).Err? ==> r.Err?
    ensures r.Ok? ==>
      var pg := Paging(q.page, q.limit).value;
      var rows := Window(SelectedScholarships(db, q), pg.0, pg.1);
      && |r.value| == |rows| <= pg.1
      && forall k :: 0 <= k < |rows| ==>
           && ToView(rows[k]) == Some(r.value[k].view)
           && r.value[k].createdAt == rows[k].createdAt
           && r.value[k].createdBy == AuthorName(db, rows[k])
           && r.value[k].applicationCount == CountWhere(db.applications, (a: Application) => ForScholarship(rows[k].id, a))
  {
    match Paging(q.page, q.limit)
    case Err(f) => Err(f)
    case Ok(pg) =>
      match Decorate(db, Window(SelectedScholarships(db, q), pg.0, pg.1))
      case None => Err(Unexpected)
      case Some(items) => Ok(items)
  }

  /** Every listed row satisfies the filters, and the rows come newest first. */
  lemma ListScholarshipsRows(db: Db, q: ScholarshipQuery)
    requires ListScholarships(db, q).Ok?
    ensures var items := ListScholarships(db, q).value;
      && (forall k :: 0 <= k < |items| ==>
            && (Given(q.status) ==> ScholarshipStatusName(items[k].view.status) == q.status.value)
            && (Given(q.category) ==> CategoryName(items[k].view.category) == q.category.value))
      && (forall i, j :: 0 <= i < j < |items| ==> items[i].createdAt >= items[j].createdAt)
  {
    var pg := Paging(q.page, q.limit).value;
    var all := SelectedScholarships(db, q);
    var rows := Window(all, pg.0, pg.1);
    WindowKeepsOrder(all, pg.0, pg.1, NewerCreation);
    WindowKeepsProperty(all, pg.0, pg.1, (s: Scholarship) => ScholarshipSelected(q, s));
  }

  /** On a consistent store only the paging parameters can make the listing fail. */
  lemma ListScholarshipsSucceeds(db: Db, q: ScholarshipQuery)
    requires Valid(db) && Paging(q.page, q.limit).Ok?
    ensures ListScholarships(db, q).Ok?
  {
    var pg := Paging(q.page, q.limit).value;
    var all := SelectedScholarships(db, q);
    var rows := Window(all, pg.0, pg.1);
    forall k | 0 <= k < |rows| ensures ListsWellFormed(rows[k]) {
      assert rows[k] in db.scholarships;
    }
  }

  // GET /applications

  datatype ApplicationQuery = ApplicationQuery(
    page: Option<string>, limit: Option<string>, status: Option<string>, scholarshipId: Option<string>)

  /** One row of the admin application listing. */
  datatype AdminApplication = AdminApplication(
    id: nat, status: ApplicationStatus, submittedAt: int, reviewedAt: Option<int>, notes: Option<string>,
    scholarshipTitle: string, amount: int, firstName: string, lastName: string, email: string,
    reviewer: Option<(string, string)>)

  /** The `WHERE` clause: the status by name, the scholarship by its decimal id. */
  predicate ApplicationSelected(q: ApplicationQuery, a: Application)
  {
    && (Given(q.status) ==> ApplicationStatusName(a.status) == q.status.value)
    && (Given(q.scholarshipId) ==> ParseInt(q.scholarshipId.value) == Some(a.scholarshipId as int))
  }

  /** The two inner joins and the left join on the reviewer for one application. */
  function JoinApplication(db: Db, a: Application): (r: Option<AdminApplication>)
    ensures r.Some? <==> HasScholarship(db, a.scholarshipId) && HasUser(db, a.userId)
    ensures r.Some? ==> r.value.id == a.id && r.value.status == a.status && r.value.submittedAt == a.submittedAt
  {
    match (Find(db.scholarships, (s: Scholarship) => ScholarshipHasId(a.scholarshipId, s)),
           Find(db.users, (u: User) => UserHasId(a.userId, u)))
    case (Some(s), Some(u)) =>
      var reviewer :=
        if a.reviewedBy.None? then None
        else match Find(db.users, (v: User) => UserHasId(a.reviewedBy.value, v))
             case None => None
             case Some(v) => Some((v.firstName, v.lastName));
      Some(AdminApplication(a.id, a.status, a.submittedAt, a.reviewedAt, a.notes,
        s.title, s.amount, u.firstName, u.lastName, u.email, reviewer))
    case _ => None
  }

  predicate ApplicationListed(db: Db, q: ApplicationQuery, a: Application)
  {
    ApplicationSelected(q, a) && JoinApplication(db, a).Some?
  }

  /** `ORDER BY a.submitted_at DESC`. */
  predicate NewerApplication(a: AdminApplication, b: AdminApplication)
  {
    a.submittedAt >= b.submittedAt
  }

  lemma NewerApplicationIsTotalPreorder()
    ensures TotalPreorder(NewerApplication)
  {
  }

  /** `x` is the join of a selected application. */
  ghost predicate ListedFrom(db: Db, q: ApplicationQuery, x: AdminApplication)
  {
    exists i :: 0 <= i < |db.applications| &&
      ApplicationSelected(q, db.applications[i]) && JoinApplication(db, db.applications[i]) == Some(x)
  }

  /** The join of `a` when the query selects it. */
  function SelectedJoin(db: Db, q: ApplicationQuery, a: Application): Option<AdminApplication>
  {
    if ApplicationSelected(q, a) then JoinApplication(db, a) else None
  }

  /** The selected applications that join, joined, in table order: one line
      per listed application, and nothing else. */
  function JoinedApplications(db: Db, q: ApplicationQuery): (r: seq<AdminApplication>)
    ensures |r| == CountWhere(db.applications, (a: Application) => ApplicationListed(db, q, a))
    ensures forall k :: 0 <= k < |r| ==> ListedFrom(db, q, r[k])
    ensures forall i :: 0 <= i < |db.applications| && ApplicationListed(db, q, db.applications[i]) ==>
      JoinApplication(db, db.applications[i]).value in r
  {
    var f := (a: Application) => SelectedJoin(db, q, a);
    CollectLength(db.applications, f, (a: Application) => ApplicationListed(db, q, a));
    var r := Collect(db.applications, f);
    assert forall k :: 0 <= k < |r| ==> ListedFrom(db, q, r[k]) by {
      forall k | 0 <= k < |r| ensures ListedFrom(db, q, r[k]) {
        var i :| 0 <= i < |db.applications| && f(db.applications[i]) == Some(r[k]);
      }
    }
    r
  }

  /** The selected, joined applications, newest first, before paging. */
  function SelectedApplications(db: Db, q: ApplicationQuery): (r: seq<AdminApplication>)
    ensures forall i, j :: 0 <= i < j < |r| ==> r[i].submittedAt >= r[j].submittedAt
    ensures forall k :: 0 <= k < |r| ==> ListedFrom(db, q, r[k])
    ensures |r| == CountWhere(db.applications, (a: Application) => ApplicationListed(db, q, a))
    ensures multiset(r) == multiset(JoinedApplications(db, q))
    ensures forall i :: 0 <= i < |db.applications| && ApplicationListed(db, q, db.applications[i]) ==>
      JoinApplication(db, db.applications[i]).value in r
  {
    var joined := JoinedApplications(db, q);
    NewerApplicationIsTotalPreorder();
    SortKeepsRows(joined, NewerApplication);
    SortKeepsProperty(joined, NewerApplication, (x: AdminApplication) => ListedFrom(db, q, x));
    Sort(joined, NewerApplication)
  }

  /** `GET /applications` (admin): filter, join, order newest first and page. */
  function ListApplications(db: Db, q: ApplicationQuery): (r: Result<seq<AdminApplication>>)
    ensures r.Err? <==> Paging(q.page, q.limit).Err?
    ensures r.Err? ==> r.failure == Unexpected
    ensures r.Ok? ==>
      var pg := Paging(q.page, q.limit).value;
      r.value == Window(SelectedApplications(db, q), pg.0, pg.1) && |r.value| <= pg.1
  {
    match Paging(q.page, q.limit)
    case Err(f) => Err(f)
    case Ok(pg) => Ok(Window(SelectedApplications(db, q), pg.0, pg.1))
  }

  /** Some stored application with the item's id belongs to the scholarship
      the query names, if it names one. */
  ghost predicate OfAskedScholarship(db: Db, q: ApplicationQuery, item: AdminApplication)
  {
    exists i :: 0 <= i < |db.applications| && db.applications[i].id == item.id &&
      (Given(q.scholarshipId) ==> ParseInt(q.scholarshipId.value) == Some(db.applications[i].scholarshipId as int))
  }

  /** What a joined, selected application says about its source row. */
  lemma ListedFromSelected(db: Db, q: ApplicationQuery, item: AdminApplication)
    requires ListedFrom(db, q, item)
    ensures Given(q.status) ==> ApplicationStatusName(item.status) == q.status.value
    ensures OfAskedScholarship(db, q, item)
  {
    var i :| 0 <= i < |db.applications| && ApplicationSelected(q, db.applications[i]) &&
      JoinApplication(db, db.applications[i]) == Some(item);
  }

  /** With a status filter every listed application has that status, and
      with a scholarship filter every one belongs to that scholarship. */
  lemma ListApplicationsRows(db: Db, q: ApplicationQuery, k: nat)
    requires ListApplications(db, q).Ok? && k < |ListApplications(db, q).value|
    ensures var item := ListApplications(db, q).value[k];
      && (Given(q.status) ==> ApplicationStatusName(item.status) == q.status.value)
      && OfAskedScholarship(db, q, item)
  {
    ListedAt(db, q, k);
    ListedFromSelected(db, q, ListApplications(db, q).value[k]);
  }

  lemma ListedAt(db: Db, q: ApplicationQuery, k: nat)
    requires ListApplications(db, q).Ok? && k < |ListApplications(db, q).value|
    ensures ListedFrom(db, q, ListApplications(db, q).value[k])
  {
    var pg := Paging(q.page, q.limit).value;
    var all := SelectedApplications(db, q);
    assert ListApplications(db, q).value == Window(all, pg.0, pg.1);
    WindowKeepsProperty(all, pg.0, pg.1, (x: AdminApplication) => ListedFrom(db, q, x));
  }

  /** On a consistent store the unfiltered, unpaged count is every application. */
  lemma ListApplicationsCountsAll(db: Db)
    requires Valid(db)
    ensures |SelectedApplications(db, ApplicationQuery(None, None, None, None))| == |db.applications|
    ensures forall i :: 0 <= i < |db.applications| ==>
      JoinApplication(db, db.applications[i]).Some? &&
      JoinApplication(db, db.applications[i]).value in SelectedApplications(db, ApplicationQuery(None, None, None, None))
  {
    var q := ApplicationQuery(None, None, None, None);
    forall i | 0 <= i < |db.applications| ensures ApplicationListed(db, q, db.applications[i]) {
    }
    FilterAll(db.applications, (a: Application) => ApplicationListed(db, q, a));
    FilterLength(db.applications, (a: Application) => ApplicationListed(db, q, a));
  }
}
